/** The integer format of a graph: dehydrate, get_dehydrated_size and the hydrating constructor of dagster/Dag.cpp. */
module DagWire {
  import opened Ranges
  import opened Wire

  /** The transmitted part of a graph. */
  datatype Graph = Graph(noNodes: nat, reporting: Buffer, clauses: seq<Buffer>, forward: seq<seq<int>>, literals: seq<seq<Buffer>>)

  predicate Shaped(g: Graph) {
    && |g.clauses| == |g.forward| == |g.literals| == g.noNodes
    && (forall i :: 0 <= i < g.noNodes ==> |g.literals[i]| == g.noNodes)
    && (forall i, k :: 0 <= i < g.noNodes && 0 <= k < |g.forward[i]| ==> 0 <= g.forward[i][k] < g.noNodes)
  }

  /** Range sets are canonical and do not hold the end marker. */
  ghost predicate Sendable(b: Buffer) {
    Canonical(b) && !In(b, -1)
  }

  /** What the constructors guarantee: range sets of indices and variables, and no edge twice. */
  ghost predicate WellFormed(g: Graph) {
    && Shaped(g) && Sendable(g.reporting) && (forall i :: 0 <= i < g.noNodes ==> Sendable(g.clauses[i]))
    && (forall i, j :: 0 <= i < g.noNodes && 0 <= j < g.noNodes ==> Sendable(g.literals[i][j]))
    && (forall i, j, k :: 0 <= i < g.noNodes && 0 <= j < k < |g.forward[i]| ==> g.forward[i][j] != g.forward[i][k])
  }

  /** The clause sets from node i on, each closed by the marker. */
  function ClauseTail(g: Graph, i: nat): seq<int>
    requires |g.clauses| == g.noNodes
    decreases g.noNodes - i
  {
    if i >= g.noNodes then [] else Listed(g.clauses[i]) + [-1] + ClauseTail(g, i + 1)
  }

  /** The edges from the k-th of node i on: both ends, the literals, the marker. */
  function EdgeTail(g: Graph, i: nat, k: nat): seq<int>
    requires Shaped(g) && (i < g.noNodes ==> k <= |g.forward[i]|)
    decreases g.noNodes - i, if i < g.noNodes then |g.forward[i]| - k else 0
  {
    if i >= g.noNodes then [] else if k == |g.forward[i]| then EdgeTail(g, i + 1, 0)
    else [i, g.forward[i][k]] + Listed(g.literals[i][g.forward[i][k]]) + [-1] + EdgeTail(g, i, k + 1)
  }

  function Content(g: Graph): seq<int>
    requires Shaped(g)
  {
    [g.noNodes] + Listed(g.reporting) + [-1] + ClauseTail(g, 0) + EdgeTail(g, 0, 0)
  }

  function Format(g: Graph): seq<int>
    requires Shaped(g)
  {
    [1 + |Content(g)|] + Content(g)
  }

  lemma ClauseTailStep(g: Graph, i: nat)
    requires |g.clauses| == g.noNodes && i < g.noNodes
    ensures ClauseTail(g, i) == Listed(g.clauses[i]) + [-1] + ClauseTail(g, i + 1)
  {
  }

  lemma ClauseTailEnd(g: Graph)
    requires |g.clauses| == g.noNodes
    ensures ClauseTail(g, g.noNodes) == []
  {
  }

  lemma EdgeTailStep(g: Graph, i: nat, k: nat)
    requires Shaped(g) && i < g.noNodes && k < |g.forward[i]|
    ensures EdgeTail(g, i, k) == [i, g.forward[i][k]] + (Listed(g.literals[i][g.forward[i][k]]) + [-1]) + EdgeTail(g, i, k + 1)
  {
    hide Listed;
  }

  lemma EdgeTailRow(g: Graph, i: nat)
    requires Shaped(g) && i < g.noNodes
    ensures EdgeTail(g, i, |g.forward[i]|) == EdgeTail(g, i + 1, 0)
  {
  }

  lemma EdgeTailEnd(g: Graph)
    requires Shaped(g)
    ensures EdgeTail(g, g.noNodes, 0) == []
  {
  }

  lemma Shifted(x: seq<int>, y: seq<int>, z: seq<int>)
    ensures x + (y + z) == x + y + z
  {
  }

  // ----------------------------------------------------------------- writing

  /** The loops over the ranges of a set. */
  method PutListed(output: array<int>, upto: nat, b: Buffer) returns (next: nat)
    requires Canonical(b) && upto + |Listed(b)| <= output.Length
    modifies output
    ensures next == upto + |Listed(b)| && Appended(old(output[..]), output[..], upto, Listed(b))
  {
    hide Appended;
    hide Canonical;
    hide Listed;
    next := upto;
    ghost var a, x := output[..], [];
    NoneAppended(a, upto);
    assert b[0..] == b;
    for i := 0 to |b|
      invariant next == upto + |x| && Appended(a, output[..], upto, x) && x + Listed(b[i..]) == Listed(b)
    {
      ListedStep(b, i);
      ghost var c, span := output[..], Span(b[i].0, b[i].1);
      next := PutSpan(output, next, b[i].0, b[i].1);
      Appends(a, c, output[..], upto, x, span);
      assert x + (span + Listed(b[i + 1..])) == x + span + Listed(b[i + 1..]);
      x := x + span;
    }
    ListedEnd(b);
    assert x + [] == x;
  }

  method PutSpan(output: array<int>, upto: nat, lo: int, hi: int) returns (next: nat)
    requires lo <= hi && upto + |Span(lo, hi)| <= output.Length
    modifies output
    ensures next == upto + |Span(lo, hi)| && Appended(old(output[..]), output[..], upto, Span(lo, hi))
  {
    hide Appended;
    next := upto;
    ghost var a := output[..];
    NoneAppended(a, upto);
    for c := lo to hi + 1
      invariant next == upto + c - lo && Appended(a, output[..], upto, Span(lo, hi)[..c - lo])
    {
      ghost var b := output[..];
      next := Put(output, next, c);
      Appends(a, b, output[..], upto, Span(lo, hi)[..c - lo], [c]);
      assert Span(lo, hi)[..c - lo + 1] == Span(lo, hi)[..c - lo] + [c];
    }
    assert Span(lo, hi)[..|Span(lo, hi)|] == Span(lo, hi);
  }

  lemma ListedStep(b: Buffer, i: nat)
    requires Canonical(b) && i < |b|
    ensures b[i].0 <= b[i].1 && Listed(b[i..]) == Span(b[i].0, b[i].1) + Listed(b[i + 1..])
  {
    assert b[i..][1..] == b[i + 1..];
  }

  lemma ListedEnd(b: Buffer)
    ensures Listed(b[|b|..]) == []
  {
  }

  /** The number of the members, counted one by one. */
  method CountListed(b: Buffer) returns (n: nat)
    requires Canonical(b)
    ensures n == |Listed(b)|
  {
    hide Canonical;
    hide Listed;
    n := 0;
    assert b[0..] == b;
    for i := 0 to |b|
      invariant n + |Listed(b[i..])| == |Listed(b)|
    {
      ListedStep(b, i);
      for c := b[i].0 to b[i].1 + 1
        invariant n + (b[i].1 + 1 - c) + |Listed(b[i + 1..])| == |Listed(b)|
      {
        n := n + 1;
      }
    }
    ListedEnd(b);
  }

  // ----------------------------------------------------------------- reading

  lemma {:induction false} AddedAllFront(b: Buffer, x: int, ms: seq<int>)
    ensures AddedAll(b, [x] + ms) == AddedAll(Added(b, x), ms)
  {
    hide Added;
    var all := [x] + ms;
    if ms == [] {
      assert all[..0] == [];
      assert AddedAll(b, all[..0]) == b;
    } else {
      var n := |ms| - 1;
      AddedAllFront(b, x, ms[..n]);
      assert all[..|all| - 1] == [x] + ms[..n];
    }
  }

  /** The set b still has to receive the members todo to become the set t; todo does not hold the marker. */
  ghost predicate Filling(b: Buffer, todo: seq<int>, t: Buffer) {
    -1 !in todo && AddedAll(b, todo) == t
  }

  lemma FillStart(t: Buffer)
    requires Sendable(t)
    ensures Filling([], Listed(t), t)
  {
    ListedRestores(t);
    ListedMembers(t, -1);
  }

  lemma FillStep(b: Buffer, todo: seq<int>, t: Buffer, rest: seq<int>, tail: seq<int>)
    requires Filling(b, todo, t) && rest == todo + [-1] + tail
    ensures rest != [] && (rest[0] == -1 <==> todo == [])
    ensures todo == [] ==> b == t && rest[1..] == tail
    ensures todo != [] ==> Filling(Added(b, rest[0]), todo[1..], t) && rest[1..] == todo[1..] + [-1] + tail
  {
    hide Added;
    if todo != [] {
      assert todo[0] in todo;
      assert todo == [todo[0]] + todo[1..];
      AddedAllFront(b, todo[0], todo[1..]);
    }
  }

  /** The edges read so far are those before the k-th of node i, with their literals; there are no others. */
  ghost predicate Built(g: Graph, forward: seq<seq<int>>, literals: seq<seq<Buffer>>, i: nat, k: nat)
    requires Shaped(g)
  {
    && |forward| == |literals| == g.noNodes && (forall r :: 0 <= r < g.noNodes ==> |literals[r]| == g.noNodes)
    && (i < g.noNodes ==> k <= |g.forward[i]|)
    && (forall r :: 0 <= r < g.noNodes ==> forward[r] == if r < i then g.forward[r] else if r == i then g.forward[r][..k] else [])
    && (forall r, c :: 0 <= r < g.noNodes && 0 <= c < g.noNodes ==>
         literals[r][c] == if c in forward[r] then g.literals[r][c] else [])
  }

  ghost predicate Sized(g: Graph, h: Graph) {
    Shaped(g) && h.noNodes == g.noNodes == |h.clauses|
  }

  /** While the reporting set is read. */
  ghost predicate ReadingReporting(g: Graph, h: Graph, rest: seq<int>, todo: seq<int>) {
    && Sized(g, h) && Built(g, h.forward, h.literals, 0, 0) && (forall r :: 0 <= r < g.noNodes ==> h.clauses[r] == [])
    && Filling(h.reporting, todo, g.reporting) && rest == todo + [-1] + (ClauseTail(g, 0) + EdgeTail(g, 0, 0))
  }

  /** While the clause set of node c is read. */
  ghost predicate ReadingClauses(g: Graph, h: Graph, rest: seq<int>, c: int, todo: seq<int>) {
    && Sized(g, h) && Built(g, h.forward, h.literals, 0, 0) && h.reporting == g.reporting && 0 <= c < g.noNodes
    && (forall r :: 0 <= r < c ==> h.clauses[r] == g.clauses[r]) && (forall r :: c < r < g.noNodes ==> h.clauses[r] == [])
    && Filling(h.clauses[c], todo, g.clauses[c]) && rest == todo + [-1] + (ClauseTail(g, c + 1) + EdgeTail(g, 0, 0))
  }

  ghost predicate SetsRead(g: Graph, h: Graph) {
    Sized(g, h) && h.reporting == g.reporting && h.clauses == g.clauses
  }

  /** Before an edge, or at the end. */
  ghost predicate ReadingEdges(g: Graph, h: Graph, rest: seq<int>, i: nat, k: nat) {
    SetsRead(g, h) && Built(g, h.forward, h.literals, i, k) && rest == EdgeTail(g, i, k)
  }

  /** Between the ends of an edge. */
  ghost predicate ReadingEnd(g: Graph, h: Graph, rest: seq<int>, i: nat, k: nat, from: int) {
    && SetsRead(g, h) && Built(g, h.forward, h.literals, i, k) && i < g.noNodes && k < |g.forward[i]| && from == i
    && rest == [g.forward[i][k]] + Listed(g.literals[i][g.forward[i][k]]) + [-1] + EdgeTail(g, i, k + 1)
  }

  function Updated(literals: seq<seq<Buffer>>, i: int, j: int, b: Buffer): seq<seq<Buffer>>
    requires 0 <= i < |literals| && 0 <= j < |literals[i]|
  {
    literals[i := literals[i][j := b]]
  }

  lemma UpdatedTwice(literals: seq<seq<Buffer>>, i: nat, j: nat, b: Buffer, c: Buffer)
    requires i < |literals| && j < |literals[i]|
    ensures Updated(literals, i, j, literals[i][j]) == literals
    ensures Updated(literals, i, j, b)[i][j] == b && Updated(Updated(literals, i, j, b), i, j, c) == Updated(literals, i, j, c)
  {
    assert literals[i][j := literals[i][j]] == literals[i];
    assert literals[i][j := b][j := c] == literals[i][j := c];
  }

  /** While the literals of an edge are read; with them complete the edge would be. */
  ghost predicate ReadingLiterals(g: Graph, h: Graph, rest: seq<int>, i: nat, k: nat, from: int, to: int, todo: seq<int>) {
    && SetsRead(g, h) && i < g.noNodes && k < |g.forward[i]| && from == i && to == g.forward[i][k] && 0 <= to < g.noNodes
    && i < |h.literals| && to < |h.literals[i]| && i < |h.forward|
    && Built(g, h.forward, Updated(h.literals, i, to, g.literals[i][to]), i, k + 1)
    && Filling(h.literals[i][to], todo, g.literals[i][to]) && rest == todo + [-1] + EdgeTail(g, i, k + 1)
  }

  lemma ContentParts(n: seq<int>, list: seq<int>, sets: seq<int>, edges: seq<int>)
    ensures n + list + [-1] + sets + edges == n + (list + [-1] + (sets + edges))
  {
  }

  lemma NothingBuilt(g: Graph)
    requires Shaped(g)
    ensures Built(g, Empties(g.noNodes), Tables(g.noNodes), 0, 0)
  {
  }

  lemma StartReading(g: Graph, h: Graph, rest: seq<int>)
    requires WellFormed(g) && rest == Content(g)
    requires h == Graph(g.noNodes, [], Empties(g.noNodes), Empties(g.noNodes), Tables(g.noNodes))
    ensures rest[0] == g.noNodes && ReadingReporting(g, h, rest[1..], Listed(g.reporting))
  {
    hide ClauseTail;
    hide EdgeTail;
    hide Listed;
    hide Filling;
    hide Sendable;
    FillStart(g.reporting);
    ContentParts([g.noNodes], Listed(g.reporting), ClauseTail(g, 0), EdgeTail(g, 0, 0));
    NothingBuilt(g);
    hide Built;
  }

  function Empties<T>(n: nat): (s: seq<seq<T>>)
    ensures |s| == n && forall i :: 0 <= i < n ==> s[i] == []
  {
    seq(n, i => [])
  }

  function Tables(n: nat): (s: seq<seq<Buffer>>)
    ensures |s| == n && forall i :: 0 <= i < n ==> s[i] == Empties(n)
  {
    seq(n, i => Empties(n))
  }

  lemma NoEdges(g: Graph)
    requires Shaped(g) && g.noNodes == 0
    ensures EdgeTail(g, 0, 0) == []
  {
  }

  lemma StepReporting(g: Graph, h: Graph, rest: seq<int>, todo: seq<int>)
    requires WellFormed(g) && ReadingReporting(g, h, rest, todo)
    ensures rest != [] && (rest[0] == -1 <==> todo == [])
    ensures h.noNodes == g.noNodes == |g.clauses|
    ensures todo != [] ==> ReadingReporting(g, h.(reporting := Added(h.reporting, rest[0])), rest[1..], todo[1..])
    ensures todo == [] && g.noNodes > 0 ==> ReadingClauses(g, h, rest[1..], 0, Listed(g.clauses[0]))
    ensures todo == [] && g.noNodes == 0 ==> SetsRead(g, h) && Built(g, h.forward, h.literals, 0, 0) && rest[1..] == []
  {
    hide Filling;
    hide EdgeTail;
    hide Listed;
    hide Added;
    hide Sendable;
    hide Built;
    var tail, edges := ClauseTail(g, 0), EdgeTail(g, 0, 0);
    FillStep(h.reporting, todo, g.reporting, rest, tail + edges);
    if g.noNodes > 0 {
      FillStart(g.clauses[0]);
      var first, more := Listed(g.clauses[0]) + [-1], ClauseTail(g, 1);
      assert tail == first + more;
      assert first + more + edges == first + (more + edges);
    } else {
      NoEdges(g);
      assert tail + edges == [];
    }
  }

  lemma StepClauses(g: Graph, h: Graph, rest: seq<int>, c: int, todo: seq<int>)
    requires WellFormed(g) && ReadingClauses(g, h, rest, c, todo)
    ensures rest != [] && (rest[0] == -1 <==> todo == [])
    ensures 0 <= c < g.noNodes == h.noNodes == |h.clauses| == |g.clauses|
    ensures todo != [] ==> ReadingClauses(g, h.(clauses := h.clauses[c := Added(h.clauses[c], rest[0])]), rest[1..], c, todo[1..])
    ensures todo == [] && c + 1 < g.noNodes ==> ReadingClauses(g, h, rest[1..], c + 1, Listed(g.clauses[c + 1]))
    ensures todo == [] && c + 1 == g.noNodes ==> ReadingEdges(g, h, rest[1..], 0, 0)
  {
    hide Filling;
    hide EdgeTail;
    hide Listed;
    hide Added;
    hide Sendable;
    hide Built;
    var tail, edges := ClauseTail(g, c + 1), EdgeTail(g, 0, 0);
    FillStep(h.clauses[c], todo, g.clauses[c], rest, tail + edges);
    if c + 1 < g.noNodes {
      FillStart(g.clauses[c + 1]);
      var first, more := Listed(g.clauses[c + 1]) + [-1], ClauseTail(g, c + 2);
      assert tail == first + more;
      assert first + more + edges == first + (more + edges);
    } else {
      assert tail == [] && [] + edges == edges;
      assert todo == [] ==> h.clauses == g.clauses;
    }
  }

  /** Nodes without further edges are passed over. */
  lemma {:induction false} NextEdge(g: Graph, h: Graph, rest: seq<int>, i: nat, k: nat) returns (i': nat, k': nat)
    requires ReadingEdges(g, h, rest, i, k)
    ensures ReadingEdges(g, h, rest, i', k')
    ensures if rest == [] then i' >= g.noNodes else i' < g.noNodes && k' < |g.forward[i']|
    decreases g.noNodes - i
  {
    hide Listed;
    if i >= g.noNodes || k < |g.forward[i]| {
      return i, k;
    }
    assert Built(g, h.forward, h.literals, i + 1, 0) by {
      assert g.forward[i][..k] == g.forward[i];
    }
    i', k' := NextEdge(g, h, rest, i + 1, 0);
  }

  lemma StepFrom(g: Graph, h: Graph, rest: seq<int>, i: nat, k: nat)
    requires ReadingEdges(g, h, rest, i, k) && i < g.noNodes && k < |g.forward[i]|
    ensures rest != [] && rest[0] == i && ReadingEnd(g, h, rest[1..], i, k, rest[0])
  {
    hide Listed;
    hide Built;
    var j := g.forward[i][k];
    var list, tail := Listed(g.literals[i][j]), EdgeTail(g, i, k + 1);
    assert [i, j] + list + [-1] + tail == [i] + ([j] + list + [-1] + tail);
  }

  lemma NewEdge(g: Graph, forward: seq<seq<int>>, literals: seq<seq<Buffer>>, i: nat, k: nat)
    requires WellFormed(g) && Built(g, forward, literals, i, k) && i < g.noNodes && k < |g.forward[i]|
    ensures |forward| == |literals| == g.noNodes && |literals[i]| == g.noNodes && 0 <= g.forward[i][k] < g.noNodes
    ensures literals[i][g.forward[i][k]] == []
    ensures Built(g, forward[i := forward[i] + [g.forward[i][k]]], Updated(literals, i, g.forward[i][k], g.literals[i][g.forward[i][k]]), i, k + 1)
  {
    hide Sendable;
    var j := g.forward[i][k];
    assert g.forward[i][..k + 1] == g.forward[i][..k] + [j];
    assert j !in forward[i];
    var forward', literals' := forward[i := forward[i] + [j]], Updated(literals, i, j, g.literals[i][j]);
    forall r, c | 0 <= r < g.noNodes && 0 <= c < g.noNodes ensures literals'[r][c] == if c in forward'[r] then g.literals[r][c] else [] {
      assert c in forward'[r] <==> c in forward[r] || (r == i && c == j);
    }
  }

  lemma StepTo(g: Graph, h: Graph, rest: seq<int>, i: nat, k: nat, from: int)
    requires WellFormed(g) && ReadingEnd(g, h, rest, i, k, from)
    ensures i < |g.forward| && k < |g.forward[i]| && i < |g.literals|
    ensures rest != [] && rest[0] == g.forward[i][k] && 0 <= rest[0] < |g.literals[i]|
    ensures 0 <= from == i < |h.forward|
    ensures ReadingLiterals(g, h.(forward := h.forward[from := h.forward[from] + [rest[0]]]), rest[1..], i, k, from, rest[0],
                            Listed(g.literals[i][rest[0]]))
  {
    hide Filling;
    hide Listed;
    hide EdgeTail;
    hide Sendable;
    hide Updated;
    var j := g.forward[i][k];
    var list, tail := Listed(g.literals[i][j]), EdgeTail(g, i, k + 1);
    FillStart(g.literals[i][j]);
    NewEdge(g, h.forward, h.literals, i, k);
    hide Built;
    assert [j] + list + [-1] + tail == [j] + (list + [-1] + tail);
  }

  lemma StepLiterals(g: Graph, h: Graph, rest: seq<int>, i: nat, k: nat, from: int, to: int, todo: seq<int>)
    requires WellFormed(g) && ReadingLiterals(g, h, rest, i, k, from, to, todo)
    ensures rest != [] && (rest[0] == -1 <==> todo == [])
    ensures 0 <= from < |h.literals| && 0 <= to < |h.literals[from]|
    ensures todo != [] ==>
      ReadingLiterals(g, h.(literals := Updated(h.literals, from, to, Added(h.literals[from][to], rest[0]))), rest[1..], i, k, from, to, todo[1..])
    ensures todo == [] ==> ReadingEdges(g, h, rest[1..], i, k + 1)
  {
    hide Filling;
    hide Built;
    hide EdgeTail;
    hide Listed;
    hide Added;
    hide Sendable;
    FillStep(h.literals[i][to], todo, g.literals[i][to], rest, EdgeTail(g, i, k + 1));
    UpdatedTwice(h.literals, i, to, Added(h.literals[i][to], rest[0]), g.literals[i][to]);
    hide Updated;
  }

  class Dag {
    var noNodes: nat
    var reporting: Buffer
    var clauses: seq<Buffer>
    var forward: seq<seq<int>>
    var literals: seq<seq<Buffer>>

    function Value(): (g: Graph)
      reads this
    {
      Graph(noNodes, reporting, clauses, forward, literals)
    }

    /** get_dehydrated_size. */
    method GetDehydratedSize() returns (n: nat)
      requires WellFormed(Value())
      ensures n == |Format(Value())|
    {
      hide Listed;
      hide Canonical;
      ghost var g := Value();
      n := 2;
      var m := CountListed(reporting);
      n := n + m + 1;
      for i := 0 to noNodes
        invariant n + |ClauseTail(g, i)| == 3 + |Listed(reporting)| + |ClauseTail(g, 0)|
      {
        m := CountListed(clauses[i]);
        n := n + m + 1;
      }
      for i := 0 to noNodes
        invariant n + |EdgeTail(g, i, 0)| == |Format(g)|
      {
        for k := 0 to |forward[i]|
          invariant n + |EdgeTail(g, i, k)| == |Format(g)|
        {
          m := CountListed(literals[i][forward[i][k]]);
          n := n + 2 + m + 1;
        }
      }
    }

    /** dehydrate. */
    method Dehydrate(output: array<int>) returns (size: nat)
      requires WellFormed(Value()) && |Format(Value())| <= output.Length
      modifies output
      ensures size == |Format(Value())| && Appended(old(output[..]), output[..], 0, Format(Value()))
    {
      hide Appended;
      hide Listed;
      hide Sendable;
      hide ClauseTail;
      hide EdgeTail;
      ghost var a, g := output[..], Value();
      var upto := DehydrateHead(output);
      ghost var b, x := output[..], [noNodes] + Listed(reporting) + [-1];
      upto := DehydrateClauses(output, upto);
      Appends(a, b, output[..], 1, x, ClauseTail(g, 0));
      b, x := output[..], x + ClauseTail(g, 0);
      upto := DehydrateEdges(output, upto);
      Appends(a, b, output[..], 1, x, EdgeTail(g, 0, 0));
      size := Stamp(output, 0, upto, a, x + EdgeTail(g, 0, 0));
    }

    method DehydrateHead(output: array<int>) returns (upto: nat)
      requires WellFormed(Value()) && 3 + |Listed(reporting)| <= output.Length
      modifies output
      ensures upto == 3 + |Listed(reporting)| && Appended(old(output[..]), output[..], 1, [noNodes] + Listed(reporting) + [-1])
    {
      hide Appended;
      hide Listed;
      ghost var a := output[..];
      upto := Put(output, 1, noNodes);
      ghost var b, x := output[..], [noNodes];
      upto := PutListed(output, upto, reporting);
      Appends(a, b, output[..], 1, x, Listed(reporting));
      b, x := output[..], x + Listed(reporting);
      upto := Put(output, upto, -1);
      Appends(a, b, output[..], 1, x, [-1]);
    }

    method PutMarked(output: array<int>, start: nat, b: Buffer) returns (upto: nat)
      requires Canonical(b) && start + |Listed(b)| + 1 <= output.Length
      modifies output
      ensures upto == start + |Listed(b)| + 1 && Appended(old(output[..]), output[..], start, Listed(b) + [-1])
    {
      hide Appended;
      hide Listed;
      hide Canonical;
      ghost var a := output[..];
      upto := PutListed(output, start, b);
      ghost var c := output[..];
      upto := Put(output, upto, -1);
      Appends(a, c, output[..], start, Listed(b), [-1]);
    }

    method DehydrateClauses(output: array<int>, start: nat) returns (upto: nat)
      requires WellFormed(Value()) && start + |ClauseTail(Value(), 0)| <= output.Length
      modifies output
      ensures upto == start + |ClauseTail(Value(), 0)| && Appended(old(output[..]), output[..], start, ClauseTail(Value(), 0))
    {
      hide Appended;
      hide Listed;
      hide Canonical;
      hide ClauseTail;
      upto := start;
      ghost var a, x, g := output[..], [], Value();
      NoneAppended(a, start);
      for i := 0 to noNodes
        invariant upto == start + |x| && Appended(a, output[..], start, x) && x + ClauseTail(g, i) == ClauseTail(g, 0)
      {
        ghost var b, y := output[..], Listed(clauses[i]) + [-1];
        ClauseTailStep(g, i);
        Shifted(x, y, ClauseTail(g, i + 1));
        upto := PutMarked(output, upto, clauses[i]);
        Appends(a, b, output[..], start, x, y);
        x := x + y;
      }
      ClauseTailEnd(g);
      assert x + [] == x;
    }

    method DehydrateEdges(output: array<int>, start: nat) returns (upto: nat)
      requires WellFormed(Value()) && start + |EdgeTail(Value(), 0, 0)| <= output.Length
      modifies output
      ensures upto == start + |EdgeTail(Value(), 0, 0)| && Appended(old(output[..]), output[..], start, EdgeTail(Value(), 0, 0))
    {
      hide Appended;
      hide Listed;
      hide Canonical;
      hide EdgeTail;
      upto := start;
      ghost var a, x, g := output[..], [], Value();
      NoneAppended(a, start);
      for i := 0 to noNodes
        invariant upto == start + |x| && Appended(a, output[..], start, x) && x + EdgeTail(g, i, 0) == EdgeTail(g, 0, 0)
      {
        for k := 0 to |forward[i]|
          invariant upto == start + |x| && Appended(a, output[..], start, x) && x + EdgeTail(g, i, k) == EdgeTail(g, 0, 0)
        {
          ghost var b, y := output[..], [i, forward[i][k]] + (Listed(literals[i][forward[i][k]]) + [-1]);
          EdgeTailStep(g, i, k);
          Shifted(x, y, EdgeTail(g, i, k + 1));
          upto := DehydrateEdge(output, upto, i, k);
          Appends(a, b, output[..], start, x, y);
          x := x + y;
        }
        EdgeTailRow(g, i);
      }
      EdgeTailEnd(g);
      assert x + [] == x;
    }

    method DehydrateEdge(output: array<int>, start: nat, i: nat, k: nat) returns (upto: nat)
      requires WellFormed(Value()) && i < noNodes && k < |forward[i]|
      requires start + 3 + |Listed(literals[i][forward[i][k]])| <= output.Length
      modifies output
      ensures upto == start + 3 + |Listed(literals[i][forward[i][k]])|
      ensures Appended(old(output[..]), output[..], start, [i, forward[i][k]] + (Listed(literals[i][forward[i][k]]) + [-1]))
    {
      hide Appended;
      hide Listed;
      hide Canonical;
      ghost var a := output[..];
      upto := PutAll(output, start, [i, forward[i][k]]);
      ghost var b := output[..];
      upto := PutMarked(output, upto, literals[i][forward[i][k]]);
      Appends(a, b, output[..], start, [i, forward[i][k]], Listed(literals[i][forward[i][k]]) + [-1]);
    }

    /** The hydrating constructor, for data in the format of the graph g; generate_from_minimal is not part of it. */
    constructor Hydrate(data: array<int>, ghost g: Graph)
      requires WellFormed(g) && Holds(data, 0, Format(g))
      ensures Restored(g, Value())
    {
      noNodes, reporting, clauses, forward, literals := 0, [], [], [], [];
      new;
      hide Format;
      hide Holds;
      hide WellFormed;
      hide ReadingReporting;
      hide ReadingClauses;
      hide ReadingEdges;
      hide ReadingEnd;
      hide ReadingLiterals;
      hide SetsRead;
      hide Built;
      hide Added;
      hide Listed;
      hide State;
      hide Content;
      hide Restored;
      hide Empties;
      hide Tables;
      FormatReads(g, data);
      var size := data[0];
      var upto, stage, counter, to, from := 1, 0, 0, 0, 0;
      ghost var rest, todo: seq<int>, i: nat, k: nat := Content(g), [], 0, 0;
      Unread(g, Value(), rest);
      while upto < size
        invariant 1 <= upto <= size == |Format(g)| && rest == Format(g)[upto..]
        invariant State(g, Value(), rest, stage, counter, from, to, todo, i, k)
        decreases size - upto
      {
        var d := data[upto];
        assert rest[0] == Format(g)[upto] == d;
        upto := upto + 1;
        if stage == 0 {
          StageZero(g, Value(), rest, counter, from, to, todo, i, k);
          noNodes, clauses, forward, literals := d, Empties(d), Empties(d), Tables(d);
          stage, todo := 1, Listed(g.reporting);
        } else if stage < 3 {
          stage, counter, todo := ReadSets(d, stage, counter, from, to, g, rest, todo, i, k);
          i, k := 0, 0;
        } else {
          counter, from, to, todo, i, k := ReadEdges(d, counter, from, to, g, rest, todo, i, k);
        }
        rest := rest[1..];
      }
      Finished(g, Value(), rest, stage, counter, from, to, todo, i, k);
    }

    /** One number of the reporting set or of the clause sets. */
    method ReadSets(d: int, stage: int, counter: int, from: int, to: int, ghost g: Graph, ghost rest: seq<int>,
                    ghost todo: seq<int>,
                    ghost i: nat, ghost k: nat)
      returns (stage': int, counter': int, ghost todo': seq<int>)
      requires WellFormed(g) && rest != [] && rest[0] == d && stage in {1, 2} && State(g, Value(), rest, stage, counter, from, to, todo, i, k)
      modifies `reporting, `clauses
      ensures State(g, Value(), rest[1..], stage', counter', from, to, todo', 0, 0)
    {
      hide WellFormed;
      hide ReadingReporting;
      hide ReadingClauses;
      hide ReadingEdges;
      hide ReadingEnd;
      hide ReadingLiterals;
      hide Added;
      hide Listed;
      stage', counter', todo' := stage, counter, todo;
      if stage == 1 {
        StepReporting(g, Value(), rest, todo);
        if d != -1 {
          reporting, todo' := Added(reporting, d), todo[1..];
        } else {
          stage', todo' := 2, if g.noNodes > 0 then Listed(g.clauses[0]) else [];
        }
      } else {
        StepClauses(g, Value(), rest, counter, todo);
        if d != -1 {
          clauses, todo' := clauses[counter := Added(clauses[counter], d)], todo[1..];
        } else {
          counter' := counter + 1;
          todo' := if counter' < g.noNodes then Listed(g.clauses[counter']) else [];
        }
        if counter' >= noNodes {
          stage', counter' := 3, 0;
        }
      }
    }

    /** One number of the edges. */
    method ReadEdges(d: int, counter: int, from: int, to: int, ghost g: Graph, ghost rest: seq<int>, ghost todo: seq<int>,
                     ghost i: nat, ghost k: nat)
      returns (counter': int, from': int, to': int, ghost todo': seq<int>, ghost i': nat, ghost k': nat)
      requires WellFormed(g) && rest != [] && rest[0] == d && State(g, Value(), rest, 3, counter, from, to, todo, i, k)
      modifies `forward, `literals
      ensures State(g, Value(), rest[1..], 3, counter', from', to', todo', i', k')
    {
      hide WellFormed;
      hide ReadingReporting;
      hide ReadingClauses;
      hide ReadingEdges;
      hide ReadingEnd;
      hide ReadingLiterals;
      hide Added;
      hide Listed;
      hide Updated;
      counter', from', to', todo', i', k' := counter, from, to, todo, i, k;
      if counter == 0 {
        i', k' := NextEdge(g, Value(), rest, i, k);
        StepFrom(g, Value(), rest, i', k');
        from', counter' := d, 1;
      } else if counter == 1 {
        StepTo(g, Value(), rest, i, k, from);
        to' := d;
        forward := forward[from := forward[from] + [to']];
        counter', todo' := 2, Listed(g.literals[i][to']);
      } else {
        StepLiterals(g, Value(), rest, i, k, from, to, todo);
        if d != -1 {
          literals, todo' := Updated(literals, from, to, Added(literals[from][to], d)), todo[1..];
        } else {
          counter', k' := 0, k + 1;
        }
      }
    }
  }

  /** What is known between two numbers read. */
  ghost predicate State(g: Graph, h: Graph, rest: seq<int>, stage: int, counter: int, from: int, to: int,
                        todo: seq<int>, i: nat, k: nat) {
    && 0 <= stage <= 3 && Shaped(g)
    && (stage == 0 ==> rest == Content(g) && h.reporting == [] && counter == 0)
    && (stage == 1 ==> ReadingReporting(g, h, rest, todo) && counter == 0)
    && (stage == 2 ==> if g.noNodes > 0 then ReadingClauses(g, h, rest, counter, todo) else AtEnd(g, h, rest))
    && (stage == 3 ==> 0 <= counter <= 2)
    && (stage == 3 && counter == 0 ==> ReadingEdges(g, h, rest, i, k))
    && (stage == 3 && counter == 1 ==> ReadingEnd(g, h, rest, i, k, from))
    && (stage == 3 && counter == 2 ==> ReadingLiterals(g, h, rest, i, k, from, to, todo))
  }

  lemma Unread(g: Graph, h: Graph, rest: seq<int>)
    requires Shaped(g) && rest == Content(g) && h.reporting == []
    ensures State(g, h, rest, 0, 0, 0, 0, [], 0, 0)
  {
    hide Content;
  }

  lemma StageZero(g: Graph, h: Graph, rest: seq<int>, counter: int, from: int, to: int, todo: seq<int>, i: nat, k: nat)
    requires WellFormed(g) && State(g, h, rest, 0, counter, from, to, todo, i, k)
    ensures rest != [] && rest[0] == g.noNodes && h.reporting == []
    ensures State(g, Graph(g.noNodes, [], Empties(g.noNodes), Empties(g.noNodes), Tables(g.noNodes)), rest[1..], 1, counter, from, to,
                  Listed(g.reporting), i, k)
  {
    StartReading(g, Graph(g.noNodes, [], Empties(g.noNodes), Empties(g.noNodes), Tables(g.noNodes)), rest);
    hide ReadingReporting;
    hide Listed;
    hide WellFormed;
  }

  /** The sets and the edges are those of g; literals are kept for the edges. */
  ghost predicate Restored(g: Graph, h: Graph) {
    && Shaped(g) && h.noNodes == g.noNodes && h.reporting == g.reporting && h.clauses == g.clauses && h.forward == g.forward
    && |h.literals| == g.noNodes && (forall r :: 0 <= r < g.noNodes ==> |h.literals[r]| == g.noNodes)
    && forall r, c :: 0 <= r < g.noNodes && 0 <= c < g.noNodes ==> h.literals[r][c] == if c in g.forward[r] then g.literals[r][c] else []
  }

  ghost predicate AtEnd(g: Graph, h: Graph, rest: seq<int>) {
    SetsRead(g, h) && Built(g, h.forward, h.literals, g.noNodes, 0) && rest == []
  }

  lemma FormatReads(g: Graph, data: array<int>)
    requires Shaped(g) && Holds(data, 0, Format(g))
    ensures |Format(g)| <= data.Length && forall n :: 0 <= n < |Format(g)| ==> data[n] == Format(g)[n]
    ensures |Format(g)| >= 2 && Format(g)[0] == |Format(g)| && Format(g)[1..] == Content(g)
  {
    HoldsAt(data, 0, Format(g));
    hide Holds;
  }

  /** The data can only end where the graph ends. */
  lemma Finished(g: Graph, h: Graph, rest: seq<int>, stage: int, counter: int, from: int, to: int, todo: seq<int>, i: nat, k: nat)
    requires WellFormed(g) && rest == [] && State(g, h, rest, stage, counter, from, to, todo, i, k)
    ensures Restored(g, h)
  {
    if stage == 3 && counter == 0 {
      var i', k' := NextEdge(g, h, rest, i, k);
    }
    hide Filling;
    hide EdgeTail;
    hide Sendable;
  }

  /** A graph written and read back is the same, and the size announced is the size written. */
  method DagRoundTrip(g: Dag) returns (h: Dag, announced: nat, written: nat)
    requires WellFormed(g.Value())
    ensures Restored(g.Value(), h.Value()) && announced == written == |Format(g.Value())|
  {
    hide Sendable;
    hide Format;
    hide Restored;
    hide Appended;
    announced := g.GetDehydratedSize();
    var data := new int[announced];
    ghost var a := data[..];
    written := g.Dehydrate(data);
    HoldsAppended(a, data, 0, Format(g.Value()));
    h := new Dag.Hydrate(data, g.Value());
  }
}
