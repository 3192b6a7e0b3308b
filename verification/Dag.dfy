/** dagster/Dag.cpp: the acyclicity check and the assignment of depths and subgraph indices by relaxation. */
module Layering {

  const MAX_DAG_DEPTH := 10000

  datatype Option<T> = None | Some(value: T)

  /** Adjacency lists both ways over nodes 0 to n - 1. */
  ghost predicate Graph(n: nat, forward: seq<seq<nat>>, reverse: seq<seq<nat>>) {
    && |forward| == |reverse| == n
    && (forall i, j :: 0 <= i < n && j in forward[i] ==> j < n)
    && (forall i, j :: 0 <= i < n && j in reverse[i] ==> j < n)
    && (forall i, j :: 0 <= i < n && 0 <= j < n ==> (j in forward[i] <==> i in reverse[j]))
  }

  // ------------------------------------------------------------- acyclicity

  /** Some walk of k edges starts at i. */
  ghost predicate Walk(forward: seq<seq<nat>>, i: nat, k: nat)
    decreases k
  {
    i < |forward| && (k == 0 || exists e :: 0 <= e < |forward[i]| && Walk(forward, forward[i][e], k - 1))
  }

  predicate Closed(forward: seq<seq<nat>>) {
    forall i, e :: 0 <= i < |forward| && 0 <= e < |forward[i]| ==> forward[i][e] < |forward|
  }

  /** _recursive_forward: the number of walks from i, or None on reaching a depth beyond the maximum. */
  function RecursiveForward(forward: seq<seq<nat>>, i: nat, depth: nat, max: nat): (r: Option<nat>)
    requires i < |forward| && Closed(forward) && depth <= max + 1
    ensures r.Some? ==> r.value >= 1
    decreases max + 1 - depth, 1, 0
  {
    if depth > max then None else CountFrom(forward, i, 0, depth, max)
  }

  function CountFrom(forward: seq<seq<nat>>, i: nat, k: nat, depth: nat, max: nat): (r: Option<nat>)
    requires i < |forward| && Closed(forward) && depth <= max && k <= |forward[i]|
    ensures r.Some? ==> r.value >= 1
    decreases max + 1 - depth, 0, |forward[i]| - k
  {
    if k == |forward[i]| then Some(1)
    else
      match RecursiveForward(forward, forward[i][k], depth + 1, max)
      case None => None
      case Some(temp) =>
        match CountFrom(forward, i, k + 1, depth, max)
        case None => None
        case Some(counts) => Some(counts + temp)
  }

  /** The search fails exactly if a walk from i goes beyond the maximum. */
  lemma {:induction false} RecursiveForwardFails(forward: seq<seq<nat>>, i: nat, depth: nat, max: nat)
    requires i < |forward| && Closed(forward) && depth <= max + 1
    ensures RecursiveForward(forward, i, depth, max) == None <==> Walk(forward, i, max + 1 - depth)
    decreases max + 1 - depth, 1, 0
  {
    if depth <= max {
      CountFromFails(forward, i, 0, depth, max);
    }
  }

  lemma {:induction false} CountFromFails(forward: seq<seq<nat>>, i: nat, k: nat, depth: nat, max: nat)
    requires i < |forward| && Closed(forward) && depth <= max && k <= |forward[i]|
    ensures CountFrom(forward, i, k, depth, max) == None <==> exists j :: k <= j < |forward[i]| && Walk(forward, forward[i][j], max - depth)
    decreases max + 1 - depth, 0, |forward[i]| - k
  {
    if k < |forward[i]| {
      RecursiveForwardFails(forward, forward[i][k], depth + 1, max);
      CountFromFails(forward, i, k + 1, depth, max);
    }
  }

  /** No walk is longer than the maximum; in particular there is no cycle. */
  ghost predicate Shallow(forward: seq<seq<nat>>, max: nat) {
    forall i: nat :: i < |forward| ==> !LongWalk(forward, i, max)
  }

  ghost predicate LongWalk(forward: seq<seq<nat>>, i: nat, max: nat) {
    Walk(forward, i, max + 1)
  }

  /** The length of the longest walk from i, up to k. */
  ghost function Height(forward: seq<seq<nat>>, i: nat, k: nat): (h: nat)
    requires i < |forward|
    ensures h <= k && Walk(forward, i, h) && forall j: nat :: h < j <= k ==> !Walk(forward, i, j)
  {
    if k == 0 || Walk(forward, i, k) then k else Height(forward, i, k - 1)
  }

  /** A topological rank: nodes that are further from the ends come first. */
  ghost function Rank(forward: seq<seq<nat>>, max: nat, i: nat): int
    requires i < |forward|
  {
    max - Height(forward, i, max)
  }

  lemma RankIncreases(forward: seq<seq<nat>>, max: nat, i: nat, j: nat)
    requires Shallow(forward, max) && i < |forward| && j in forward[i] && j < |forward|
    ensures Rank(forward, max, i) < Rank(forward, max, j)
  {
    var h := Height(forward, j, max);
    var e :| 0 <= e < |forward[i]| && forward[i][e] == j;
    assert Walk(forward, i, h + 1);
    assert !LongWalk(forward, i, max);
  }

  /** An accepted graph has no cycle: no walk returns to where it started. */
  lemma {:induction false} NoCycle(n: nat, forward: seq<seq<nat>>, reverse: seq<seq<nat>>, max: nat, walk: seq<nat>)
    requires Graph(n, forward, reverse) && Shallow(forward, max)
    requires |walk| >= 2 && walk[0] < n && forall k :: 0 <= k < |walk| - 1 ==> walk[k] < n && walk[k + 1] in forward[walk[k]]
    ensures walk[|walk| - 1] < n && Rank(forward, max, walk[0]) < Rank(forward, max, walk[|walk| - 1])
    ensures walk[0] != walk[|walk| - 1]
  {
    var m := |walk| - 1;
    RankIncreases(forward, max, walk[m - 1], walk[m]);
    if m > 1 {
      NoCycle(n, forward, reverse, max, walk[..m]);
    }
  }

  predicate AllUnique(v: seq<nat>) {
    forall i, j :: 0 <= i < j < |v| ==> v[i] != v[j]
  }

  // ------------------------------------------------------ weak connectedness

  ghost predicate Adjacent(n: nat, forward: seq<seq<nat>>, i: nat, j: nat) {
    i < n && j < n && |forward| == n && (j in forward[i] || i in forward[j])
  }

  ghost predicate Trail(n: nat, forward: seq<seq<nat>>, p: seq<nat>) {
    p != [] && (forall k :: 0 <= k < |p| ==> p[k] < n) && forall k :: 0 <= k < |p| - 1 ==> Adjacent(n, forward, p[k], p[k + 1])
  }

  ghost predicate Connected(n: nat, forward: seq<seq<nat>>, i: nat, j: nat) {
    exists p: seq<nat> :: Trail(n, forward, p) && p[0] == i && p[|p| - 1] == j
  }

  lemma ConnectedSelf(n: nat, forward: seq<seq<nat>>, i: nat)
    requires i < n
    ensures Connected(n, forward, i, i)
  {
    assert Trail(n, forward, [i]);
  }

  lemma ConnectedMore(n: nat, forward: seq<seq<nat>>, i: nat, j: nat, k: nat)
    requires Connected(n, forward, i, j) && Adjacent(n, forward, j, k)
    ensures Connected(n, forward, i, k)
  {
    var p :| Trail(n, forward, p) && p[0] == i && p[|p| - 1] == j;
    assert Trail(n, forward, p + [k]);
  }

  lemma ConnectedBack(n: nat, forward: seq<seq<nat>>, i: nat, j: nat)
    requires Connected(n, forward, i, j)
    ensures Connected(n, forward, j, i)
  {
    var p :| Trail(n, forward, p) && p[0] == i && p[|p| - 1] == j;
    var q := seq(|p|, k requires 0 <= k < |p| => p[|p| - 1 - k]);
    forall k | 0 <= k < |q| - 1 ensures Adjacent(n, forward, q[k], q[k + 1]) {
      assert Adjacent(n, forward, p[|p| - 2 - k], p[|p| - 2 - k + 1]);
    }
    assert Trail(n, forward, q);
  }

  lemma ConnectedThrough(n: nat, forward: seq<seq<nat>>, i: nat, j: nat, k: nat)
    requires Connected(n, forward, i, j) && Connected(n, forward, j, k)
    ensures Connected(n, forward, i, k)
  {
    var p :| Trail(n, forward, p) && p[0] == i && p[|p| - 1] == j;
    var q :| Trail(n, forward, q) && q[0] == j && q[|q| - 1] == k;
    var r := p + q[1..];
    forall m | 0 <= m < |r| - 1 ensures Adjacent(n, forward, r[m], r[m + 1]) {
      if m >= |p| - 1 {
        assert Adjacent(n, forward, q[m - |p| + 1], q[m - |p| + 2]);
      }
    }
    assert Trail(n, forward, r);
  }

  /** An index that adjacent nodes share is shared by connected nodes. */
  lemma {:induction false} SharedAlong(n: nat, forward: seq<seq<nat>>, index: seq<int>, p: seq<nat>)
    requires |index| == n && Trail(n, forward, p) && forall i: nat, j: nat :: Adjacent(n, forward, i, j) ==> index[i] == index[j]
    ensures index[p[0]] == index[p[|p| - 1]]
  {
    if |p| > 1 {
      SharedAlong(n, forward, index, p[..|p| - 1]);
      assert Adjacent(n, forward, p[|p| - 2], p[|p| - 2 + 1]);
    }
  }

  // --------------------------------------------------------------- layering

  /** The relaxation's state: depth and subgraph of each node, the subgraph being worked on, the least and greatest depth
      given out in it, and the greatest depth of those finished. A node without a depth has subgraph -1. */
  datatype Layers = Layers(depth: seq<Option<int>>, subgraph: seq<int>, current: nat, lo: int, hi: int, maxDepth: int)

  ghost predicate Shape(n: nat, s: Layers) {
    && |s.depth| == |s.subgraph| == n && s.lo <= 0 <= s.hi && 0 <= s.maxDepth
    && forall x :: 0 <= x < n ==> -1 <= s.subgraph[x] <= s.current && (s.depth[x] == None <==> s.subgraph[x] == -1)
  }

  /** A finished subgraph is closed under adjacency and layered. */
  ghost predicate Finished(n: nat, forward: seq<seq<nat>>, s: Layers)
    requires Shape(n, s)
  {
    && (forall x: nat, y: nat :: Adjacent(n, forward, x, y) && 0 <= s.subgraph[x] < s.current ==> s.subgraph[y] == s.subgraph[x])
    && (forall x, y :: 0 <= x < n && 0 <= s.subgraph[x] < s.current && |forward| == n && y in forward[x] && y < n && s.depth[y].Some? ==>
         s.depth[x].value < s.depth[y].value)
    && (forall x :: 0 <= x < n && 0 <= s.subgraph[x] < s.current ==> 0 <= s.depth[x].value <= s.maxDepth)
    && (forall c :: 0 <= c < s.current ==> HasDepth(n, s, c, 0))
  }

  ghost predicate HasDepth(n: nat, s: Layers, c: int, d: int)
    requires Shape(n, s)
  {
    exists x :: 0 <= x < n && s.subgraph[x] == c && s.depth[x] == Some(d)
  }

  /** The subgraph being worked on: depths within the bounds, the lower one reached, and above m plus the rank. */
  ghost predicate Working(n: nat, s: Layers, rank: seq<int>, m: int)
    requires Shape(n, s)
  {
    && |rank| == n && HasDepth(n, s, s.current, s.lo)
    && forall x :: 0 <= x < n && s.subgraph[x] == s.current ==> s.lo <= s.depth[x].value <= s.hi && m + rank[x] <= s.depth[x].value
  }

  ghost predicate Rooted(n: nat, forward: seq<seq<nat>>, s: Layers, roots: seq<nat>)
    requires Shape(n, s)
  {
    forall x :: 0 <= x < n && 0 <= s.subgraph[x] ==> s.subgraph[x] < |roots| && Connected(n, forward, roots[s.subgraph[x]], x)
  }

  ghost predicate Ranked(n: nat, forward: seq<seq<nat>>, rank: seq<int>) {
    |rank| == |forward| == n && forall x, y :: 0 <= x < n && y in forward[x] && y < n ==> rank[x] < rank[y]
  }

  ghost predicate Inv(n: nat, forward: seq<seq<nat>>, s: Layers, rank: seq<int>, m: int, roots: seq<nat>) {
    && Shape(n, s) && Finished(n, forward, s) && Working(n, s, rank, m) && Rooted(n, forward, s, roots) && Ranked(n, forward, rank)
  }

  /** given: the depths ever given in the working subgraph, lo and hi being the least and the greatest of them. */
  ghost predicate Traced(s: Layers, given: set<int>) {
    && s.lo in given && s.hi in given && (forall g :: g in given ==> s.lo <= g <= s.hi)
    && forall x :: 0 <= x < |s.depth| && x < |s.subgraph| && s.subgraph[x] == s.current && s.depth[x].Some? ==> s.depth[x].value in given
  }

  lemma TracedPut(n: nat, s: Layers, t: Layers, rank: seq<int>, m: int, given: set<int>, y: nat, d: int)
    requires Shape(n, s) && Shape(n, t) && Traced(s, given) && Working(n, t, rank, m) && y < n
    requires t.depth == s.depth[y := Some(d)] && t.subgraph == s.subgraph[y := s.current] && t.current == s.current
    requires t.lo == (if d < s.lo then d else s.lo) && t.hi == if d > s.hi then d else s.hi
    ensures Traced(t, given + {d})
  {
    assert t.subgraph[y] == t.current && t.depth[y] == Some(d);
  }

  /** Nothing is left to do at node x. */
  ghost predicate Settled(n: nat, forward: seq<seq<nat>>, reverse: seq<seq<nat>>, s: Layers, x: nat)
    requires Shape(n, s) && x < n && |forward| == |reverse| == n
  {
    s.subgraph[x] == s.current ==>
      && (forall y :: y in forward[x] && y < n ==> s.depth[y].Some?)
      && (forall y :: y in reverse[x] && y < n ==> s.depth[y].Some? && s.depth[y].value < s.depth[x].value)
  }

  ghost function Unassigned(s: Layers, k: nat): nat
    requires k <= |s.depth|
  {
    if k == 0 then 0 else Unassigned(s, k - 1) + if s.depth[k - 1] == None then 1 else 0
  }

  /** The height of the working subgraph's depths above their lower bounds. */
  ghost function Slack(s: Layers, rank: seq<int>, m: int, k: nat): int
    requires k <= |s.depth| == |s.subgraph| == |rank|
  {
    if k == 0 then 0
    else
      Slack(s, rank, m, k - 1)
      + if s.subgraph[k - 1] == s.current && s.depth[k - 1].Some? then s.depth[k - 1].value - rank[k - 1] - m else 0
  }

  lemma {:induction false} SlackNonNegative(n: nat, s: Layers, rank: seq<int>, m: int, k: nat)
    requires Shape(n, s) && Working(n, s, rank, m) && k <= n
    ensures Slack(s, rank, m, k) >= 0
  {
    if k > 0 {
      SlackNonNegative(n, s, rank, m, k - 1);
    }
  }

  function Put(s: Layers, y: nat, d: int): Layers
    requires y < |s.depth| == |s.subgraph|
  {
    s.(depth := s.depth[y := Some(d)], subgraph := s.subgraph[y := s.current])
  }

  lemma {:induction false} UnassignedPut(s: Layers, y: nat, d: int, k: nat)
    requires y < |s.depth| == |s.subgraph| && k <= |s.depth|
    ensures Unassigned(Put(s, y, d), k) == Unassigned(s, k) - if y < k && s.depth[y] == None then 1 else 0
  {
    if k > 0 {
      UnassignedPut(s, y, d, k - 1);
    }
  }

  lemma {:induction false} SlackPut(s: Layers, rank: seq<int>, m: int, y: nat, d: int, k: nat)
    requires y < |s.depth| == |s.subgraph| == |rank| && k <= |s.depth| && s.subgraph[y] == s.current && s.depth[y].Some?
    ensures Slack(Put(s, y, d), rank, m, k) == Slack(s, rank, m, k) + if y < k then d - s.depth[y].value else 0
  {
    if k > 0 {
      SlackPut(s, rank, m, y, d, k - 1);
    }
  }

  /** t is s with depth d given to node y, whatever the bounds. */
  ghost predicate Puts(s: Layers, t: Layers, y: nat, d: int) {
    && y < |s.depth| == |s.subgraph|
    && t.depth == s.depth[y := Some(d)] && t.subgraph == s.subgraph[y := s.current] && t.current == s.current && t.maxDepth == s.maxDepth
  }

  /** A neighbour of the working subgraph is not in a finished one. */
  lemma NotFinished(n: nat, forward: seq<seq<nat>>, s: Layers, x: nat, y: nat)
    requires Shape(n, s) && Finished(n, forward, s) && Adjacent(n, forward, x, y) && s.subgraph[x] == s.current
    ensures s.subgraph[y] == -1 || s.subgraph[y] == s.current
  {
    assert Adjacent(n, forward, y, x);
  }

  /** The finished subgraphs do not see changes of the working one. */
  lemma PutFinished(n: nat, forward: seq<seq<nat>>, s: Layers, t: Layers, y: nat, d: int)
    requires Shape(n, s) && Finished(n, forward, s) && Puts(s, t, y, d) && t.lo <= 0 <= t.hi
    requires s.subgraph[y] == -1 || s.subgraph[y] == s.current
    ensures Shape(n, t) && Finished(n, forward, t)
  {
    forall a: nat, b: nat | Adjacent(n, forward, a, b) && 0 <= t.subgraph[a] < t.current ensures t.subgraph[b] == t.subgraph[a] {
      assert a != y && s.subgraph[b] == s.subgraph[a];
    }
    forall a, b | 0 <= a < n && 0 <= t.subgraph[a] < t.current && |forward| == n && b in forward[a] && b < n && t.depth[b].Some?
      ensures t.depth[a].value < t.depth[b].value
    {
      assert Adjacent(n, forward, a, b) && a != y;
    }
    forall c | 0 <= c < s.current ensures HasDepth(n, t, c, 0) {
      assert HasDepth(n, s, c, 0);
      var w :| 0 <= w < n && s.subgraph[w] == c && s.depth[w] == Some(0);
      assert t.subgraph[w] == c && t.depth[w] == Some(0);
    }
  }

  lemma PutRooted(n: nat, forward: seq<seq<nat>>, s: Layers, t: Layers, roots: seq<nat>, x: nat, y: nat, d: int)
    requires Shape(n, s) && Shape(n, t) && Rooted(n, forward, s, roots) && Puts(s, t, y, d) && Adjacent(n, forward, x, y) && s.subgraph[x] == s.current
    ensures Rooted(n, forward, t, roots)
  {
    ConnectedMore(n, forward, roots[s.current], x, y);
    hide Connected;
  }

  /** Giving a new node y a depth d. */
  lemma PutNew(n: nat, forward: seq<seq<nat>>, s: Layers, rank: seq<int>, m: int, roots: seq<nat>, x: nat, y: nat,
               d: int, t: Layers) returns (m': int)
    requires Inv(n, forward, s, rank, m, roots) && Adjacent(n, forward, x, y) && s.subgraph[x] == s.current && s.depth[y] == None
    requires Puts(s, t, y, d) && t.lo == (if d < s.lo then d else s.lo) && t.hi == if d > s.hi then d else s.hi
    ensures Inv(n, forward, t, rank, m', roots) && Unassigned(t, n) < Unassigned(s, n)
  {
    m' := if d - rank[y] < m then d - rank[y] else m;
    PutFinished(n, forward, s, t, y, d);
    PutRooted(n, forward, s, t, roots, x, y, d);
    PutUnassigned(n, s, t, y, d);
    NewWorking(n, s, t, rank, m, y, d, m');
    hide Finished;
    hide Working;
    hide Rooted;
    hide Ranked;
  }

  lemma PutUnassigned(n: nat, s: Layers, t: Layers, y: nat, d: int)
    requires Puts(s, t, y, d) && |s.depth| == n
    ensures Unassigned(t, n) == Unassigned(s, n) - if s.depth[y] == None then 1 else 0
  {
    UnassignedPut(s, y, d, n);
    SameUnassigned(Put(s, y, d), t, n);
  }

  lemma NewWorking(n: nat, s: Layers, t: Layers, rank: seq<int>, m: int, y: nat, d: int, m': int)
    requires Shape(n, s) && Shape(n, t) && Working(n, s, rank, m) && y < n && s.depth[y] == None && m' <= m && m' + rank[y] <= d
    requires Puts(s, t, y, d) && t.lo == (if d < s.lo then d else s.lo) && t.hi == if d > s.hi then d else s.hi
    ensures Working(n, t, rank, m')
  {
    var w :| 0 <= w < n && s.subgraph[w] == s.current && s.depth[w] == Some(s.lo);
    var w' := if d < s.lo then y else w;
    assert t.subgraph[w'] == s.current && t.depth[w'] == Some(t.lo);
  }

  /** Lowering node y of the working subgraph below its successor x. */
  lemma PutLower(n: nat, forward: seq<seq<nat>>, s: Layers, rank: seq<int>, m: int, roots: seq<nat>, x: nat, y: nat, t: Layers)
    requires Inv(n, forward, s, rank, m, roots) && x < n && y < n && x in forward[y] && s.subgraph[x] == s.current
    requires s.depth[y].Some? && s.depth[y].value >= s.depth[x].value
    requires var d := s.depth[x].value - 1; Puts(s, t, y, d) && t.lo == (if d < s.lo then d else s.lo) && t.hi == s.hi
    ensures Inv(n, forward, t, rank, m, roots)
    ensures Unassigned(t, n) == Unassigned(s, n) && Slack(t, rank, m, n) < Slack(s, rank, m, n)
  {
    hide Finished;
    hide Working;
    hide Rooted;
    hide Ranked;
    hide Puts;
    hide Unassigned;
    hide Slack;
    var d := s.depth[x].value - 1;
    LowerEdge(n, forward, rank, x, y);
    NotFinished(n, forward, s, x, y);
    PutFinished(n, forward, s, t, y, d);
    PutRooted(n, forward, s, t, roots, x, y, d);
    PutUnassigned(n, s, t, y, d);
    LowerSlack(n, s, t, rank, m, y, d);
    LowerWorking(n, s, t, rank, m, x, y);
  }

  lemma LowerEdge(n: nat, forward: seq<seq<nat>>, rank: seq<int>, x: nat, y: nat)
    requires Ranked(n, forward, rank) && x < n && y < n && x in forward[y]
    ensures Adjacent(n, forward, x, y) && |rank| == n && rank[y] < rank[x]
  {
  }

  lemma LowerSlack(n: nat, s: Layers, t: Layers, rank: seq<int>, m: int, y: nat, d: int)
    requires Puts(s, t, y, d) && |s.depth| == |rank| == n && s.subgraph[y] == s.current && s.depth[y].Some? && d < s.depth[y].value
    ensures |t.depth| == |t.subgraph| == n && Slack(t, rank, m, n) < Slack(s, rank, m, n)
  {
    SlackPut(s, rank, m, y, d, n);
    SameSlack(Put(s, y, d), t, rank, m, n);
  }

  lemma LowerWorking(n: nat, s: Layers, t: Layers, rank: seq<int>, m: int, x: nat, y: nat)
    requires Shape(n, s) && Shape(n, t) && Working(n, s, rank, m) && x < n && y < n && rank[y] < rank[x]
    requires s.subgraph[x] == s.subgraph[y] == s.current && s.depth[y].value >= s.depth[x].value
    requires var d := s.depth[x].value - 1; Puts(s, t, y, d) && t.lo == (if d < s.lo then d else s.lo) && t.hi == s.hi
    ensures Working(n, t, rank, m)
  {
    var d := s.depth[x].value - 1;
    LowerKeepsLo(n, s, t, y, d);
  }

  lemma LowerKeepsLo(n: nat, s: Layers, t: Layers, y: nat, d: int)
    requires Shape(n, s) && Shape(n, t) && y < n && s.subgraph[y] == s.current && s.depth[y].Some? && d < s.depth[y].value
    requires HasDepth(n, s, s.current, s.lo) && s.lo <= s.depth[y].value
    requires Puts(s, t, y, d) && t.lo == if d < s.lo then d else s.lo
    ensures HasDepth(n, t, t.current, t.lo)
  {
    var w :| 0 <= w < n && s.subgraph[w] == s.current && s.depth[w] == Some(s.lo);
    var w' := if d < s.lo then y else w;
    assert t.subgraph[w'] == t.current && t.depth[w'] == Some(t.lo);
  }

  lemma {:induction false} SameUnassigned(s: Layers, t: Layers, k: nat)
    requires s.depth == t.depth && k <= |s.depth|
    ensures Unassigned(s, k) == Unassigned(t, k)
  {
    if k > 0 {
      SameUnassigned(s, t, k - 1);
    }
  }

  lemma {:induction false} SameSlack(s: Layers, t: Layers, rank: seq<int>, m: int, k: nat)
    requires s.depth == t.depth && s.subgraph == t.subgraph && s.current == t.current && k <= |s.depth| == |s.subgraph| == |rank|
    ensures Slack(s, rank, m, k) == Slack(t, rank, m, k)
  {
    if k > 0 {
      SameSlack(s, t, rank, m, k - 1);
    }
  }

  /** The relaxation has moved from s to t in count steps: a node has been added, or depths have been lowered. */
  ghost predicate Progress(n: nat, rank: seq<int>, s: Layers, m: int, t: Layers, m': int, count: nat)
    requires |s.depth| == |s.subgraph| == |t.depth| == |t.subgraph| == |rank| == n
  {
    && t.current == s.current && (count == 0 ==> t == s && m' == m)
    && (|| Unassigned(t, n) < Unassigned(s, n)
        || (Unassigned(t, n) == Unassigned(s, n) && m' == m && Slack(t, rank, m, n) <= Slack(s, rank, m, n)
            && (count > 0 ==> Slack(t, rank, m, n) < Slack(s, rank, m, n))))
  }

  lemma ProgressNone(n: nat, rank: seq<int>, s: Layers, m: int)
    requires |s.depth| == |s.subgraph| == |rank| == n
    ensures Progress(n, rank, s, m, s, m, 0)
  {
  }

  lemma ProgressMore(n: nat, rank: seq<int>, s: Layers, m: int, t: Layers, m': int, count: nat, u: Layers, m'': int, count': nat)
    requires |s.depth| == |s.subgraph| == |t.depth| == |t.subgraph| == |u.depth| == |u.subgraph| == |rank| == n
    requires Progress(n, rank, s, m, t, m', count) && Progress(n, rank, t, m', u, m'', count')
    ensures Progress(n, rank, s, m, u, m'', count + count')
  {
  }

  lemma {:induction false} UnassignedSome(s: Layers, k: nat)
    requires k <= |s.depth|
    ensures Unassigned(s, k) > 0 <==> exists x :: 0 <= x < k && s.depth[x] == None
    ensures Unassigned(s, k) <= k
  {
    if k > 0 {
      UnassignedSome(s, k - 1);
    }
  }

  lemma {:induction false} AllUnassigned(s: Layers, k: nat)
    requires k <= |s.depth| && forall x :: 0 <= x < |s.depth| ==> s.depth[x] == None
    ensures Unassigned(s, k) == k
  {
    if k > 0 {
      AllUnassigned(s, k - 1);
    }
  }

  // -------------------------------------------------- one subgraph to the next

  /** Between two subgraphs: the ones before current are finished and every node with a depth is in one of them. */
  ghost predicate Between(n: nat, forward: seq<seq<nat>>, s: Layers, roots: seq<nat>) {
    && Shape(n, s) && Finished(n, forward, s) && Rooted(n, forward, s, roots) && |roots| == s.current && s.lo == s.hi == 0
    && forall x :: 0 <= x < n ==> s.subgraph[x] < s.current
  }

  /** A first node starts the next subgraph. */
  lemma StartSubgraph(n: nat, forward: seq<seq<nat>>, s: Layers, rank: seq<int>, roots: seq<nat>, x: nat)
    requires Between(n, forward, s, roots) && Ranked(n, forward, rank) && x < n && s.depth[x] == None
    ensures |rank| == n && Inv(n, forward, Put(s, x, 0), rank, -rank[x], roots + [x])
    ensures Unassigned(Put(s, x, 0), n) == Unassigned(s, n) - 1
  {
    var t := Put(s, x, 0);
    PutFinished(n, forward, s, t, x, 0);
    UnassignedPut(s, x, 0, n);
    ConnectedSelf(n, forward, x);
    assert t.subgraph[x] == t.current && t.depth[x] == Some(0);
    hide Connected;
    hide Finished;
    hide Ranked;
  }

  /** The depths of the working subgraph moved up so that the least is 0. */
  ghost predicate Normalised(n: nat, s: Layers, t: Layers) {
    && |t.depth| == |s.depth| == |s.subgraph| == n && t.subgraph == s.subgraph && t.current == s.current + 1 && t.lo == t.hi == 0
    && t.maxDepth == (if s.hi - s.lo > s.maxDepth then s.hi - s.lo else s.maxDepth)
    && forall x :: 0 <= x < n ==>
         t.depth[x] == if s.subgraph[x] == s.current && s.depth[x].Some? then Some(s.depth[x].value - s.lo) else s.depth[x]
  }

  /** When nothing is left to do the working subgraph is closed, layered and finished by normalising it. */
  lemma FinishSubgraph(n: nat, forward: seq<seq<nat>>, reverse: seq<seq<nat>>, s: Layers, t: Layers, rank: seq<int>,
                       m: int, roots: seq<nat>)
    requires Graph(n, forward, reverse) && Inv(n, forward, s, rank, m, roots) && |roots| == s.current + 1
    requires forall x :: 0 <= x < n ==> Settled(n, forward, reverse, s, x)
    requires Normalised(n, s, t)
    ensures Between(n, forward, t, roots) && Unassigned(t, n) == Unassigned(s, n)
  {
    assert Shape(n, t);
    FinishClosed(n, forward, reverse, s, t);
    FinishLayered(n, forward, reverse, s, t);
    forall c | 0 <= c < t.current ensures HasDepth(n, t, c, 0) {
      FinishMinimum(n, forward, s, t, rank, m, c);
    }
    NormalisedUnassigned(n, s, t, n);
    hide Connected;
    hide Adjacent;
    hide Graph;
    hide HasDepth;
  }

  lemma FinishClosed(n: nat, forward: seq<seq<nat>>, reverse: seq<seq<nat>>, s: Layers, t: Layers)
    requires Graph(n, forward, reverse) && Shape(n, s) && Finished(n, forward, s) && Normalised(n, s, t)
    requires forall x :: 0 <= x < n ==> Settled(n, forward, reverse, s, x)
    ensures forall x: nat, y: nat :: Adjacent(n, forward, x, y) && 0 <= t.subgraph[x] < t.current ==> t.subgraph[y] == t.subgraph[x]
  {
    forall x: nat, y: nat | Adjacent(n, forward, x, y) && 0 <= s.subgraph[x] < t.current ensures s.subgraph[y] == s.subgraph[x] {
      if s.subgraph[x] == s.current {
        assert Settled(n, forward, reverse, s, x) && s.depth[y].Some?;
        NotFinished(n, forward, s, x, y);
      }
    }
  }

  lemma FinishLayered(n: nat, forward: seq<seq<nat>>, reverse: seq<seq<nat>>, s: Layers, t: Layers)
    requires Graph(n, forward, reverse) && Shape(n, s) && Finished(n, forward, s) && Normalised(n, s, t)
    requires forall x :: 0 <= x < n ==> Settled(n, forward, reverse, s, x)
    ensures forall x, y :: 0 <= x < n && 0 <= t.subgraph[x] < t.current && y in forward[x] && y < n && t.depth[y].Some? ==>
      t.depth[x].Some? && t.depth[x].value < t.depth[y].value
  {
    forall x, y | 0 <= x < n && 0 <= s.subgraph[x] < t.current && y in forward[x] && y < n && t.depth[y].Some?
      ensures t.depth[x].Some? && t.depth[x].value < t.depth[y].value
    {
      assert Adjacent(n, forward, x, y) && Adjacent(n, forward, y, x);
      if s.subgraph[x] == s.current {
        NotFinished(n, forward, s, x, y);
        assert Settled(n, forward, reverse, s, y) && x in reverse[y];
      } else {
        assert s.subgraph[y] == s.subgraph[x];
      }
    }
  }

  lemma FinishMinimum(n: nat, forward: seq<seq<nat>>, s: Layers, t: Layers, rank: seq<int>, m: int, c: int)
    requires Shape(n, s) && Shape(n, t) && Finished(n, forward, s) && Working(n, s, rank, m) && Normalised(n, s, t) && 0 <= c <= s.current
    ensures HasDepth(n, t, c, 0)
  {
    var d := if c == s.current then s.lo else 0;
    assert HasDepth(n, s, c, d);
    var w :| 0 <= w < n && s.subgraph[w] == c && s.depth[w] == Some(d);
    assert t.subgraph[w] == c && t.depth[w] == Some(0);
  }

  lemma {:induction false} NormalisedUnassigned(n: nat, s: Layers, t: Layers, k: nat)
    requires Normalised(n, s, t) && k <= n
    ensures Unassigned(t, k) == Unassigned(s, k)
  {
    if k > 0 {
      NormalisedUnassigned(n, s, t, k - 1);
    }
  }

  // ---------------------------------------------------------------- the class

  /** What the assignment promises: depths from 0 to maxDepth that grow along every edge and start at 0 in every subgraph,
      and one subgraph index for every weakly connected component. */
  ghost predicate Layered(n: nat, forward: seq<seq<nat>>, depth: seq<Option<int>>, subgraph: seq<int>, maxDepth: int) {
    && |depth| == |subgraph| == |forward| == n
    && (forall x :: 0 <= x < n ==> depth[x].Some? && 0 <= depth[x].value <= maxDepth)
    && (forall x, y :: 0 <= x < n && y in forward[x] && y < n ==> depth[x].value < depth[y].value)
    && (forall x :: 0 <= x < n ==> Least(n, depth, subgraph, x))
    && (forall x: nat, y: nat :: x < n && y < n ==> (subgraph[x] == subgraph[y] <==> Connected(n, forward, x, y)))
  }

  /** maxDepth is the greatest difference between two depths given, at any time, in the same subgraph. */
  ghost predicate MaxSpan(spans: seq<set<int>>, maxDepth: int) {
    && maxDepth >= 0
    && (forall k, g, h :: 0 <= k < |spans| && g in spans[k] && h in spans[k] ==> g - h <= maxDepth)
    && (maxDepth > 0 ==> exists k, g, h :: 0 <= k < |spans| && g in spans[k] && h in spans[k] && g - h == maxDepth)
  }

  /** Some node of x's subgraph has depth 0. */
  ghost predicate Least(n: nat, depth: seq<Option<int>>, subgraph: seq<int>, x: nat)
    requires |depth| == |subgraph| == n && x < n
  {
    exists w :: 0 <= w < n && subgraph[w] == subgraph[x] && depth[w] == Some(0)
  }

  lemma AllFinished(n: nat, forward: seq<seq<nat>>, reverse: seq<seq<nat>>, s: Layers, roots: seq<nat>)
    requires Graph(n, forward, reverse) && Between(n, forward, s, roots) && Unassigned(s, n) == 0
    ensures Layered(n, forward, s.depth, s.subgraph, s.maxDepth)
  {
    UnassignedSome(s, n);
    DepthsFinished(n, forward, s);
    forall x: nat, y: nat | x < n && y < n ensures s.subgraph[x] == s.subgraph[y] <==> Connected(n, forward, x, y) {
      SameSubgraph(n, forward, s, roots, x, y);
    }
    hide Connected;
    hide Adjacent;
    hide Finished;
    hide Rooted;
    hide Least;
  }

  lemma DepthsFinished(n: nat, forward: seq<seq<nat>>, s: Layers)
    requires Shape(n, s) && Finished(n, forward, s) && |forward| == n
    requires forall x :: 0 <= x < n ==> s.subgraph[x] < s.current && s.depth[x] != None
    ensures forall x :: 0 <= x < n ==> s.depth[x].Some? && 0 <= s.subgraph[x] && 0 <= s.depth[x].value <= s.maxDepth
    ensures forall x :: 0 <= x < n ==> Least(n, s.depth, s.subgraph, x)
    ensures forall x, y :: 0 <= x < n && y in forward[x] && y < n ==> s.depth[x].value < s.depth[y].value
  {
    hide Adjacent;
    forall x | 0 <= x < n ensures Least(n, s.depth, s.subgraph, x) {
      assert HasDepth(n, s, s.subgraph[x], 0);
    }
  }

  lemma SameSubgraph(n: nat, forward: seq<seq<nat>>, s: Layers, roots: seq<nat>, x: nat, y: nat)
    requires Between(n, forward, s, roots) && x < n && y < n && forall z :: 0 <= z < n ==> 0 <= s.subgraph[z] < s.current
    ensures s.subgraph[x] == s.subgraph[y] <==> Connected(n, forward, x, y)
  {
    if s.subgraph[x] == s.subgraph[y] {
      ConnectedBack(n, forward, roots[s.subgraph[x]], x);
      ConnectedThrough(n, forward, x, roots[s.subgraph[x]], y);
    }
    if Connected(n, forward, x, y) {
      var p :| Trail(n, forward, p) && p[0] == x && p[|p| - 1] == y;
      SharedAlong(n, forward, s.subgraph, p);
    }
  }

  /** Every listed node without a depth has depth d afterwards, and has joined the subgraph; nothing else has changed. */
  ghost predicate Extended(n: nat, list: seq<nat>, d: int, current: int, depth: seq<Option<int>>, subgraph: seq<int>,
                           depth': seq<Option<int>>, subgraph': seq<int>) {
    && |depth| == |subgraph| == |depth'| == |subgraph'| == n
    && forall x :: 0 <= x < n ==>
      if x in list && depth[x] == None then depth'[x] == Some(d) && subgraph'[x] == current
      else depth'[x] == depth[x] && subgraph'[x] == subgraph[x]
  }

  /** Every listed node without a depth, or with one above d, has depth d afterwards, and has joined the subgraph; nothing else has
      changed. */
  ghost predicate Lowered(n: nat, list: seq<nat>, d: int, current: int, depth: seq<Option<int>>, subgraph: seq<int>,
                          depth': seq<Option<int>>, subgraph': seq<int>) {
    && |depth| == |subgraph| == |depth'| == |subgraph'| == n
    && forall x :: 0 <= x < n ==>
      if x in list && (depth[x] == None || depth[x].value > d) then depth'[x] == Some(d) && subgraph'[x] == current
      else depth'[x] == depth[x] && subgraph'[x] == subgraph[x]
  }

  /** One more predecessor. */
  lemma LoweredMore(n: nat, list: seq<nat>, k: nat, d: int, current: int, depth: seq<Option<int>>, subgraph: seq<int>,
                    depth1: seq<Option<int>>, subgraph1: seq<int>, depth2: seq<Option<int>>, subgraph2: seq<int>)
    requires k < |list| && list[k] < n && Lowered(n, list[..k], d, current, depth, subgraph, depth1, subgraph1)
    requires if depth1[list[k]] == None || depth1[list[k]].value > d then
               depth2 == depth1[list[k] := Some(d)] && subgraph2 == subgraph1[list[k] := current]
             else depth2 == depth1 && subgraph2 == subgraph1
    ensures Lowered(n, list[..k + 1], d, current, depth, subgraph, depth2, subgraph2)
    ensures depth2 == depth ==> depth1 == depth
  {
    var y := list[k];
    assert list[..k + 1] == list[..k] + [y];
    assert depth1[y] == depth[y] || depth1[y] == Some(d);
    if depth2 == depth {
      forall x | 0 <= x < n ensures depth1[x] == depth[x] {
      }
    }
  }

  /** The node scanned keeps its depth meanwhile. */
  lemma TopStays(n: nat, list: seq<nat>, i: nat, k: nat, d: int, current: int, depth: seq<Option<int>>, subgraph: seq<int>,
                 depth': seq<Option<int>>, subgraph': seq<int>)
    requires k <= |list| && Lowered(n, list[..k], d, current, depth, subgraph, depth', subgraph') && i < n && i !in list
    ensures depth'[i] == depth[i]
  {
  }

  lemma LoweredNone(n: nat, list: seq<nat>, d: int, current: int, depth: seq<Option<int>>, subgraph: seq<int>)
    requires |depth| == |subgraph| == n
    ensures Lowered(n, list[..0], d, current, depth, subgraph, depth, subgraph)
  {
  }

  lemma LoweredMeans(n: nat, list: seq<nat>, i: nat, d: int, current: int, depth: seq<Option<int>>, subgraph: seq<int>,
                     depth': seq<Option<int>>, subgraph': seq<int>)
    requires Lowered(n, list, d, current, depth, subgraph, depth', subgraph') && i < n && i !in list
    ensures depth'[i] == depth[i] && forall y :: y in list && y < n ==> depth'[y].Some? && depth'[y].value <= d
  {
  }

  lemma NoLoop(n: nat, forward: seq<seq<nat>>, reverse: seq<seq<nat>>, rank: seq<int>, i: nat)
    requires Graph(n, forward, reverse) && Ranked(n, forward, rank) && i < n
    ensures i !in reverse[i]
  {
    forall x | x in reverse[i] ensures x != i {
      assert x < n && i in forward[x];
      assert rank[x] < rank[i];
    }
  }

  class Dag {
    const noNodes: nat
    const forward: seq<seq<nat>>
    var reverse: seq<seq<nat>>
    var depth: seq<Option<int>>
    var subgraph: seq<int>
    var nodeStatus: seq<int>
    var maxDepth: int
    ghost var given: set<int>
    ghost var spans: seq<set<int>>

    /** From the forward connections the reverse ones are collected. */
    constructor (forward: seq<seq<nat>>)
      requires Closed(forward)
      ensures this.forward == forward && noNodes == |forward| && Graph(noNodes, forward, reverse)
      ensures |depth| == |subgraph| == |nodeStatus| == noNodes
    {
      noNodes := |forward|;
      this.forward := forward;
      depth, subgraph, nodeStatus, maxDepth := seq(|forward|, i => None), seq(|forward|, i => 0), seq(|forward|, i => 0), 0;
      given, spans := {}, [];
      var r: seq<seq<nat>> := seq(|forward|, i => []);
      for i := 0 to |forward|
        invariant |r| == |forward| && forall j :: 0 <= j < |forward| ==> forall x :: x in r[j] <==> 0 <= x < i && j in forward[x]
      {
        r := Collect(forward, i, r);
      }
      reverse := r;
    }

    static method Collect(forward: seq<seq<nat>>, i: nat, r: seq<seq<nat>>) returns (r': seq<seq<nat>>)
      requires Closed(forward) && i < |forward| == |r|
      requires forall j :: 0 <= j < |forward| ==> forall x :: x in r[j] <==> 0 <= x < i && j in forward[x]
      ensures |r'| == |forward| && forall j :: 0 <= j < |forward| ==> forall x :: x in r'[j] <==> 0 <= x < i + 1 && j in forward[x]
    {
      r' := r;
      for e := 0 to |forward[i]|
        invariant |r'| == |forward|
        invariant forall j :: 0 <= j < |forward| ==> forall x :: x in r'[j] <==> x in r[j] || (x == i && j in forward[i][..e])
      {
        var j := forward[i][e];
        assert forward[i][..e + 1] == forward[i][..e] + [j];
        r' := r'[j := r'[j] + [i]];
      }
      assert forward[i][..|forward[i]|] == forward[i];
    }

    /** check_consistency: connections are not repeated and no walk is longer than the maximum. */
    method CheckConsistency() returns (ok: bool)
      requires Graph(noNodes, forward, reverse)
      ensures ok <==> (forall i :: 0 <= i < noNodes ==> AllUnique(forward[i]) && AllUnique(reverse[i])) && Shallow(forward, MAX_DAG_DEPTH)
    {
      ok := true;
      for i := 0 to noNodes
        invariant forall j :: 0 <= j < i ==> AllUnique(forward[j])
      {
        if !AllUnique(forward[i]) {
          return false;
        }
      }
      for i := 0 to noNodes
        invariant forall j :: 0 <= j < i ==> AllUnique(reverse[j])
      {
        if !AllUnique(reverse[i]) {
          return false;
        }
      }
      assert Closed(forward) by {
        assert forall i, e :: 0 <= i < |forward| && 0 <= e < |forward[i]| ==> forward[i][e] in forward[i];
      }
      for i := 0 to noNodes
        invariant forall j: nat :: j < i ==> !LongWalk(forward, j, MAX_DAG_DEPTH)
      {
        RecursiveForwardFails(forward, i, 0, MAX_DAG_DEPTH);
        if RecursiveForward(forward, i, 0, MAX_DAG_DEPTH) == None {
          assert LongWalk(forward, i, MAX_DAG_DEPTH);
          return false;
        }
      }
    }

    ghost function St(current: nat, lo: int, hi: int): Layers
      reads this
    {
      Layers(depth, subgraph, current, lo, hi, maxDepth)
    }

    /** Successor y of node i, without a depth, gets the one after that of i. */
    method Raise(i: nat, y: nat, current: nat, lo: int, hi: int, ghost rank: seq<int>, ghost m: int, ghost roots: seq<nat>)
      returns (hi': int, ghost m': int)
      requires Inv(noNodes, forward, St(current, lo, hi), rank, m, roots) && i < noNodes && y < noNodes && subgraph[i] == current
      requires Graph(noNodes, forward, reverse) && y in forward[i] && depth[y] == None
      requires Traced(St(current, lo, hi), given)
      modifies `depth, `subgraph, `given
      ensures Inv(noNodes, forward, St(current, lo, hi'), rank, m', roots)
      ensures depth == old(depth)[y := Some(old(depth)[i].value + 1)] && subgraph == old(subgraph)[y := current]
      ensures given == old(given) + {old(depth)[i].value + 1}
      ensures Progress(noNodes, rank, old(St(current, lo, hi)), m, St(current, lo, hi'), m', 1)
      ensures Unassigned(St(current, lo, hi'), noNodes) == old(Unassigned(St(current, lo, hi), noNodes)) - 1
      ensures Traced(St(current, lo, hi'), given) && old(given) <= given
    {
      hide Finished;
      hide Working;
      hide Rooted;
      ghost var s := St(current, lo, hi);
      var temp := depth[i].value + 1;
      depth := depth[y := Some(temp)];
      subgraph := subgraph[y := current];
      hi' := if temp > hi then temp else hi;
      TempAboveLo(noNodes, s, rank, m, i);
      PutUnassigned(noNodes, s, St(current, lo, hi'), y, temp);
      m' := PutNew(noNodes, forward, s, rank, m, roots, i, y, temp, St(current, lo, hi'));
      TracedPut(noNodes, s, St(current, lo, hi'), rank, m', given, y, temp);
      given := given + {temp};
    }

    /** The forward connections of node i: a successor without a depth gets the next one. */
    method ScanForward(i: nat, current: nat, lo: int, hi: int, sum: int, ghost rank: seq<int>, ghost m: int,
                       ghost roots: seq<nat>)
      returns (count: nat, hi': int, sum': int, ghost m': int)
      requires Inv(noNodes, forward, St(current, lo, hi), rank, m, roots) && i < noNodes && subgraph[i] == current && Graph(noNodes, forward, reverse)
      requires sum == noNodes - Unassigned(St(current, lo, hi), noNodes)
      requires Traced(St(current, lo, hi), given)
      modifies `depth, `subgraph, `given
      ensures Inv(noNodes, forward, St(current, lo, hi'), rank, m', roots)
      ensures Progress(noNodes, rank, old(St(current, lo, hi)), m, St(current, lo, hi'), m', count)
      ensures sum' == noNodes - Unassigned(St(current, lo, hi'), noNodes) && subgraph[i] == current
      ensures Extended(noNodes, forward[i], old(depth)[i].value + 1, current, old(depth), old(subgraph), depth, subgraph)
      ensures given == old(given) + if depth == old(depth) then {} else {old(depth)[i].value + 1}
      ensures forall y :: y in forward[i] && y < noNodes ==> depth[y].Some?
      ensures Traced(St(current, lo, hi'), given) && old(given) <= given
    {
      hide Finished;
      hide Working;
      hide Traced;
      hide Rooted;
      count, hi', sum', m' := 0, hi, sum, m;
      ghost var d := depth[i].value + 1;
      for k := 0 to |forward[i]|
        invariant Inv(noNodes, forward, St(current, lo, hi'), rank, m', roots) && subgraph[i] == current
        invariant Progress(noNodes, rank, old(St(current, lo, hi)), m, St(current, lo, hi'), m', count)
        invariant sum' == noNodes - Unassigned(St(current, lo, hi'), noNodes)
        invariant Traced(St(current, lo, hi'), given) && given == old(given) + if depth == old(depth) then {} else {d}
        invariant Extended(noNodes, forward[i][..k], d, current, old(depth), old(subgraph), depth, subgraph)
      {
        var y := forward[i][k];
        assert forward[i][..k + 1] == forward[i][..k] + [y];
        assert y in forward[i];
        if depth[y] == None {
          ghost var s, m0, count0 := St(current, lo, hi'), m', count;
          count, sum' := count + 1, sum' + 1;
          hi', m' := Raise(i, y, current, lo, hi', rank, m', roots);
          ProgressMore(noNodes, rank, old(St(current, lo, hi)), m, s, m0, count0, St(current, lo, hi'), m', 1);
        }
      }
      assert forward[i][..|forward[i]|] == forward[i];
    }

    /** Predecessor y of node i gets the depth before that of i. */
    method Lower(i: nat, y: nat, current: nat, lo: int, hi: int, ghost rank: seq<int>, ghost m: int, ghost roots: seq<nat>)
      returns (lo': int, ghost m': int)
      requires Inv(noNodes, forward, St(current, lo, hi), rank, m, roots) && i < noNodes && y < noNodes && subgraph[i] == current
      requires Graph(noNodes, forward, reverse) && y in reverse[i] && (depth[y] == None || depth[y].value >= depth[i].value)
      requires Traced(St(current, lo, hi), given)
      modifies `depth, `subgraph, `given
      ensures Inv(noNodes, forward, St(current, lo', hi), rank, m', roots)
      ensures depth == old(depth)[y := Some(old(depth)[i].value - 1)] && subgraph == old(subgraph)[y := current]
      ensures given == old(given) + {old(depth)[i].value - 1}
      ensures Progress(noNodes, rank, old(St(current, lo, hi)), m, St(current, lo', hi), m', 1)
      ensures Unassigned(St(current, lo', hi), noNodes) == old(Unassigned(St(current, lo, hi), noNodes)) - if old(depth)[y] == None then 1 else 0
      ensures Traced(St(current, lo', hi), given) && old(given) <= given
    {
      hide Finished;
      hide Working;
      hide Rooted;
      ghost var s := St(current, lo, hi);
      var temp := depth[i].value - 1;
      lo', m' := if temp < lo then temp else lo, m;
      depth := depth[y := Some(temp)];
      subgraph := subgraph[y := current];
      PutUnassigned(noNodes, s, St(current, lo', hi), y, temp);
      TempBelowHi(noNodes, s, rank, m, i);
      if s.depth[y] == None {
        m' := PutNew(noNodes, forward, s, rank, m, roots, i, y, temp, St(current, lo', hi));
      } else {
        PutLower(noNodes, forward, s, rank, m, roots, i, y, St(current, lo', hi));
      }
      TracedPut(noNodes, s, St(current, lo', hi), rank, m', given, y, temp);
      given := given + {temp};
    }

    /** One of them. */
    method ScanPredecessor(i: nat, y: nat, current: nat, lo: int, hi: int, sum: int, ghost rank: seq<int>, ghost m: int,
                           ghost roots: seq<nat>)
      returns (count: nat, lo': int, sum': int, ghost m': int)
      requires Inv(noNodes, forward, St(current, lo, hi), rank, m, roots) && i < noNodes && y < noNodes && subgraph[i] == current
      requires Graph(noNodes, forward, reverse) && y in reverse[i] && sum == noNodes - Unassigned(St(current, lo, hi), noNodes)
      requires Traced(St(current, lo, hi), given)
      modifies `depth, `subgraph, `given
      ensures Inv(noNodes, forward, St(current, lo', hi), rank, m', roots) && Traced(St(current, lo', hi), given)
      ensures Progress(noNodes, rank, old(St(current, lo, hi)), m, St(current, lo', hi), m', count)
      ensures sum' == noNodes - Unassigned(St(current, lo', hi), noNodes)
      ensures if old(depth)[y] == None || old(depth)[y].value >= old(depth)[i].value then
                && depth == old(depth)[y := Some(old(depth)[i].value - 1)] && subgraph == old(subgraph)[y := current]
                && given == old(given) + {old(depth)[i].value - 1}
              else depth == old(depth) && subgraph == old(subgraph) && given == old(given)
    {
      hide Finished;
      hide Working;
      hide Rooted;
      hide Traced;
      count, lo', sum', m' := 0, lo, sum, m;
      if depth[y] == None {
        sum' := sum' + 1;
      }
      var temp := depth[i].value - 1;
      if depth[y] == None || depth[y].value > temp {
        lo', m' := Lower(i, y, current, lo, hi, rank, m, roots);
        count := 1;
      }
    }

    /** The reverse connections of node i: a predecessor without a depth, or with one that is too large, gets the one before. */
    method ScanReverse(i: nat, current: nat, lo: int, hi: int, sum: int, ghost rank: seq<int>, ghost m: int,
                       ghost roots: seq<nat>)
      returns (count: nat, lo': int, sum': int, ghost m': int)
      requires Inv(noNodes, forward, St(current, lo, hi), rank, m, roots) && i < noNodes && subgraph[i] == current && Graph(noNodes, forward, reverse)
      requires sum == noNodes - Unassigned(St(current, lo, hi), noNodes)
      requires Traced(St(current, lo, hi), given)
      modifies `depth, `subgraph, `given
      ensures Inv(noNodes, forward, St(current, lo', hi), rank, m', roots)
      ensures Progress(noNodes, rank, old(St(current, lo, hi)), m, St(current, lo', hi), m', count)
      ensures sum' == noNodes - Unassigned(St(current, lo', hi), noNodes) && subgraph[i] == current
      ensures Lowered(noNodes, reverse[i], old(depth)[i].value - 1, current, old(depth), old(subgraph), depth, subgraph)
      ensures given == old(given) + if depth == old(depth) then {} else {old(depth)[i].value - 1}
      ensures depth[i] == old(depth)[i] && forall y :: y in reverse[i] && y < noNodes ==> depth[y].Some? && depth[y].value < depth[i].value
      ensures Traced(St(current, lo', hi), given) && old(given) <= given
    {
      hide Finished;
      hide Working;
      hide Traced;
      hide Rooted;
      hide Lowered;
      hide Progress;
      count, lo', sum', m' := 0, lo, sum, m;
      ghost var d := depth[i].value - 1;
      NoLoop(noNodes, forward, reverse, rank, i);
      ghost var list := reverse[i];
      LoweredNone(noNodes, list, d, current, depth, subgraph);
      ProgressNone(noNodes, rank, St(current, lo, hi), m);
      for k := 0 to |reverse[i]|
        invariant Inv(noNodes, forward, St(current, lo', hi), rank, m', roots) && subgraph[i] == current
        invariant Progress(noNodes, rank, old(St(current, lo, hi)), m, St(current, lo', hi), m', count)
        invariant sum' == noNodes - Unassigned(St(current, lo', hi), noNodes)
        invariant Traced(St(current, lo', hi), given) && given == old(given) + if depth == old(depth) then {} else {d}
        invariant Lowered(noNodes, reverse[i][..k], d, current, old(depth), old(subgraph), depth, subgraph)
      {
        var y := reverse[i][k];
        assert y in reverse[i];
        ghost var s, m0, given0 := St(current, lo', hi), m', given;
        TopStays(noNodes, list, i, k, d, current, old(depth), old(subgraph), depth, subgraph);
        var more;
        more, lo', sum', m' := ScanPredecessor(i, y, current, lo', hi, sum', rank, m', roots);
        ProgressMore(noNodes, rank, old(St(current, lo, hi)), m, s, m0, count, St(current, lo', hi), m', more);
        count := count + more;
        LoweredMore(noNodes, list, k, d, current, old(depth), old(subgraph), s.depth, s.subgraph, depth, subgraph);
      }
      assert list[..|list|] == list;
      LoweredMeans(noNodes, list, i, d, current, old(depth), old(subgraph), depth, subgraph);
    }

    /** One scan over the nodes of the working subgraph. */
    method Scan(current: nat, lo: int, hi: int, sum: int, ghost rank: seq<int>, ghost m: int, ghost roots: seq<nat>)
      returns (count: nat, lo': int, hi': int, sum': int, ghost m': int)
      requires Inv(noNodes, forward, St(current, lo, hi), rank, m, roots) && Graph(noNodes, forward, reverse)
      requires sum == noNodes - Unassigned(St(current, lo, hi), noNodes)
      requires Traced(St(current, lo, hi), given)
      modifies `depth, `subgraph, `given
      ensures Inv(noNodes, forward, St(current, lo', hi'), rank, m', roots)
      ensures Progress(noNodes, rank, old(St(current, lo, hi)), m, St(current, lo', hi'), m', count)
      ensures sum' == noNodes - Unassigned(St(current, lo', hi'), noNodes)
      ensures count == 0 ==> forall x :: 0 <= x < noNodes ==> Settled(noNodes, forward, reverse, St(current, lo', hi'), x)
      ensures Traced(St(current, lo', hi'), given) && old(given) <= given
    {
      hide Finished;
      hide Working;
      hide Traced;
      hide Rooted;
      count, lo', hi', sum', m' := 0, lo, hi, sum, m;
      for i := 0 to noNodes
        invariant Inv(noNodes, forward, St(current, lo', hi'), rank, m', roots)
        invariant Progress(noNodes, rank, old(St(current, lo, hi)), m, St(current, lo', hi'), m', count)
        invariant Traced(St(current, lo', hi'), given) && old(given) <= given
        invariant sum' == noNodes - Unassigned(St(current, lo', hi'), noNodes)
        invariant count == 0 ==> forall x :: 0 <= x < i ==> Settled(noNodes, forward, reverse, St(current, lo', hi'), x)
      {
        if depth[i].Some? && subgraph[i] == current {
          ghost var s, m0 := St(current, lo', hi'), m';
          var more, more';
          more, hi', sum', m' := ScanForward(i, current, lo', hi', sum', rank, m', roots);
          ProgressMore(noNodes, rank, old(St(current, lo, hi)), m, s, m0, count, St(current, lo', hi'), m', more);
          ghost var t, m1 := St(current, lo', hi'), m';
          more', lo', sum', m' := ScanReverse(i, current, lo', hi', sum', rank, m', roots);
          ProgressMore(noNodes, rank, old(St(current, lo, hi)), m, t, m1, count + more, St(current, lo', hi'), m', more');
          count := count + more + more';
        }
      }
    }

    /** Scans until nothing changes. */
    method Relax(current: nat, lo: int, hi: int, sum: int, ghost rank: seq<int>, ghost m: int, ghost roots: seq<nat>)
      returns (lo': int, hi': int, sum': int, ghost m': int)
      requires Inv(noNodes, forward, St(current, lo, hi), rank, m, roots) && Graph(noNodes, forward, reverse)
      requires sum == noNodes - Unassigned(St(current, lo, hi), noNodes)
      requires Traced(St(current, lo, hi), given)
      modifies `depth, `subgraph, `given
      ensures Inv(noNodes, forward, St(current, lo', hi'), rank, m', roots)
      ensures sum' == noNodes - Unassigned(St(current, lo', hi'), noNodes) >= sum
      ensures forall x :: 0 <= x < noNodes ==> Settled(noNodes, forward, reverse, St(current, lo', hi'), x)
      ensures Traced(St(current, lo', hi'), given) && old(given) <= given
    {
      hide Finished;
      hide Working;
      hide Traced;
      hide Rooted;
      hide Settled;
      lo', hi', sum', m' := lo, hi, sum, m;
      var changed: nat := 1;
      while changed > 0
        invariant Inv(noNodes, forward, St(current, lo', hi'), rank, m', roots)
        invariant sum' == noNodes - Unassigned(St(current, lo', hi'), noNodes) >= sum
        invariant Traced(St(current, lo', hi'), given) && old(given) <= given
        invariant changed == 0 ==> forall x :: 0 <= x < noNodes ==> Settled(noNodes, forward, reverse, St(current, lo', hi'), x)
        decreases Unassigned(St(current, lo', hi'), noNodes), Slack(St(current, lo', hi'), rank, m', noNodes), changed > 0
      {
        SlackNonNegative(noNodes, St(current, lo', hi'), rank, m', noNodes);
        changed, lo', hi', sum', m' := Scan(current, lo', hi', sum', rank, m', roots);
      }
    }

    /** assign_depths_and_status. */
    method AssignDepthsAndStatus()
      requires Graph(noNodes, forward, reverse) && Shallow(forward, MAX_DAG_DEPTH) && |depth| == |subgraph| == |nodeStatus| == noNodes
      modifies this
      ensures Layered(noNodes, forward, depth, subgraph, maxDepth) && |nodeStatus| == |reverse| == noNodes
      ensures MaxSpan(spans, maxDepth)
      ensures forall i :: 0 <= i < noNodes ==> (nodeStatus[i] == 1 <==> old(reverse)[i] == []) && (nodeStatus[i] == 0 || nodeStatus[i] == 1)
      ensures forall i :: 0 <= i < noNodes ==> reverse[i] == if old(reverse)[i] == [] then [i] else old(reverse)[i]
    {
      ghost var rank := seq(noNodes, i requires 0 <= i < noNodes => Rank(forward, MAX_DAG_DEPTH, i));
      forall x, y | 0 <= x < noNodes && y in forward[x] && y < noNodes ensures rank[x] < rank[y] {
        RankIncreases(forward, MAX_DAG_DEPTH, x, y);
      }
      AssignDepths(rank);
      SetStatus();
    }

    method AssignDepths(ghost rank: seq<int>)
      requires Graph(noNodes, forward, reverse) && Ranked(noNodes, forward, rank) && |depth| == |subgraph| == noNodes
      modifies `depth, `subgraph, `maxDepth, `given, `spans
      ensures Layered(noNodes, forward, depth, subgraph, maxDepth) && MaxSpan(spans, maxDepth)
    {
      hide Ranked;
      hide Finished;
      hide Rooted;
      hide Connected;
      hide Layered;
      hide MaxSpan;
      depth, subgraph, maxDepth := seq(noNodes, i => None), seq(noNodes, i => -1), 0;
      spans := [];
      NoSpans();
      var sum, current := 0, 0;
      ghost var roots: seq<nat> := [];
      NothingYet(noNodes, forward, St(0, 0, 0));
      while sum < noNodes
        invariant Between(noNodes, forward, St(current, 0, 0), roots) && sum == noNodes - Unassigned(St(current, 0, 0), noNodes)
        invariant MaxSpan(spans, maxDepth) && |spans| == current
        decreases noNodes - sum
      {
        sum, roots := OneSubgraph(current, sum, rank, roots);
        current := current + 1;
      }
      UnassignedSome(St(current, 0, 0), noNodes);
      AllFinished(noNodes, forward, reverse, St(current, 0, 0), roots);
    }

    /** Starts a subgraph at the first node without a depth, relaxes it and normalises its depths. */
    method OneSubgraph(current: nat, sum: int, ghost rank: seq<int>, ghost roots: seq<nat>) returns (sum': int,
                       ghost roots': seq<nat>)
      requires Graph(noNodes, forward, reverse) && Ranked(noNodes, forward, rank) && sum < noNodes
      requires Between(noNodes, forward, St(current, 0, 0), roots) && sum == noNodes - Unassigned(St(current, 0, 0), noNodes)
      requires MaxSpan(spans, maxDepth)
      modifies `depth, `subgraph, `maxDepth, `given, `spans
      ensures Between(noNodes, forward, St(current + 1, 0, 0), roots')
      ensures sum' == noNodes - Unassigned(St(current + 1, 0, 0), noNodes) > sum
      ensures MaxSpan(spans, maxDepth) && |spans| == |old(spans)| + 1 && old(spans) <= spans
    {
      hide Ranked;
      hide Traced;
      hide MaxSpan;
      hide Finished;
      hide Rooted;
      hide Working;
      hide Graph;
      hide Settled;
      hide Unassigned;
      ghost var s := St(current, 0, 0);
      UnassignedSome(s, noNodes);
      var i := FirstUnassigned();
      depth := depth[i := Some(0)];
      subgraph := subgraph[i := current];
      given := {0};
      StartSubgraph(noNodes, forward, s, rank, roots, i);
      roots' := roots + [i];
      TracedStart(noNodes, s, i, St(current, 0, 0));
      var lo, hi;
      ghost var m;
      lo, hi, sum', m := Relax(current, 0, 0, sum + 1, rank, -rank[i], roots');
      s := St(current, lo, hi);
      SpanMore(s, given, spans, maxDepth);
      spans := spans + [given];
      Normalise(current, lo);
      if hi - lo > maxDepth {
        maxDepth := hi - lo;
      }
      FinishSubgraph(noNodes, forward, reverse, s, St(current + 1, 0, 0), rank, m, roots');
    }

    method FirstUnassigned() returns (i: nat)
      requires |depth| == noNodes && exists x :: 0 <= x < noNodes && depth[x] == None
      ensures i < noNodes && depth[i] == None && forall j :: 0 <= j < i ==> depth[j] != None
    {
      i := 0;
      while depth[i] != None
        invariant i < noNodes && forall j :: 0 <= j < i ==> depth[j] != None
        decreases noNodes - i
      {
        i := i + 1;
      }
    }

    method Normalise(current: nat, lo: int)
      requires |depth| == |subgraph| == noNodes
      modifies `depth
      ensures |depth| == noNodes && forall x :: 0 <= x < noNodes ==>
        depth[x] == if subgraph[x] == current && old(depth)[x].Some? then Some(old(depth)[x].value - lo) else old(depth)[x]
    {
      ghost var depth0 := depth;
      for i := 0 to noNodes
        invariant |depth| == noNodes
        invariant forall x :: 0 <= x < i ==>
          depth[x] == if subgraph[x] == current && depth0[x].Some? then Some(depth0[x].value - lo) else depth0[x]
        invariant forall x :: i <= x < noNodes ==> depth[x] == depth0[x]
      {
        if subgraph[i] == current && depth[i].Some? {
          depth := depth[i := Some(depth[i].value - lo)];
        }
      }
    }

    /** A node without reverse connections has status 1, and gets itself as its only reverse connection. */
    method SetStatus()
      requires |reverse| == |nodeStatus| == noNodes
      modifies `reverse, `nodeStatus
      ensures |reverse| == |nodeStatus| == noNodes
      ensures forall i :: 0 <= i < noNodes ==> nodeStatus[i] == if old(reverse)[i] == [] then 1 else 0
      ensures forall i :: 0 <= i < noNodes ==> reverse[i] == if old(reverse)[i] == [] then [i] else old(reverse)[i]
    {
      for i := 0 to noNodes
        invariant |reverse| == |nodeStatus| == noNodes
        invariant forall j :: 0 <= j < i ==> nodeStatus[j] == if old(reverse)[j] == [] then 1 else 0
        invariant forall j :: 0 <= j < i ==> reverse[j] == if old(reverse)[j] == [] then [j] else old(reverse)[j]
        invariant forall j :: i <= j < noNodes ==> reverse[j] == old(reverse)[j]
      {
        if |reverse[i]| == 0 {
          nodeStatus := nodeStatus[i := 1];
          reverse := reverse[i := reverse[i] + [i]];
        } else {
          nodeStatus := nodeStatus[i := 0];
        }
      }
    }
  }

  lemma TracedStart(n: nat, s: Layers, i: nat, t: Layers)
    requires |s.depth| == |s.subgraph| == n && i < n && (forall x :: 0 <= x < n ==> s.subgraph[x] != s.current)
    requires t == s.(depth := s.depth[i := Some(0)], subgraph := s.subgraph[i := s.current], lo := 0, hi := 0)
    ensures Traced(t, {0})
  {
  }

  lemma NoSpans()
    ensures MaxSpan([], 0)
  {
  }

  lemma SpanMore(s: Layers, given: set<int>, spans: seq<set<int>>, maxDepth: int)
    requires Traced(s, given) && MaxSpan(spans, maxDepth)
    ensures MaxSpan(spans + [given], if s.hi - s.lo > maxDepth then s.hi - s.lo else maxDepth)
  {
    var more := spans + [given];
    assert forall k :: 0 <= k < |spans| ==> more[k] == spans[k];
    assert more[|spans|] == given;
    if s.hi - s.lo <= maxDepth && maxDepth > 0 {
      var k, g, h :| 0 <= k < |spans| && g in spans[k] && h in spans[k] && g - h == maxDepth;
      assert g in more[k] && h in more[k];
    }
  }

  lemma NothingYet(n: nat, forward: seq<seq<nat>>, s: Layers)
    requires s == Layers(seq(n, i => None), seq(n, i => -1), 0, 0, 0, 0)
    ensures Between(n, forward, s, []) && Unassigned(s, n) == n
  {
    AllUnassigned(s, n);
  }

  /** A successor's new depth is not below the working subgraph's least. */
  lemma TempAboveLo(n: nat, s: Layers, rank: seq<int>, m: int, x: nat)
    requires Shape(n, s) && Working(n, s, rank, m) && x < n && s.subgraph[x] == s.current
    ensures s.depth[x].value + 1 > s.lo
  {
  }

  lemma TempBelowHi(n: nat, s: Layers, rank: seq<int>, m: int, x: nat)
    requires Shape(n, s) && Working(n, s, rank, m) && x < n && s.subgraph[x] == s.current
    ensures s.depth[x].value - 1 < s.hi
  {
  }
}
