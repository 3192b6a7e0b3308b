/** dagster/BDDSolutions.cpp: three CNF encodings of "no completed solution holds". The decision diagram is the diagram of the
    negation, as a table in child-first order whose last entry is the root. */
module Bdd {
  import opened Logic

  datatype Entry = Leaf(value: bool) | Branch(v: nat, hi: nat, lo: nat)

  /** Children come first, tests are on original variables, branches are reduced, and only the root has no parent. */
  ghost predicate Diagram(table: seq<Entry>, vc: nat) {
    && table != [] && table[|table| - 1].Branch?
    && (forall i :: 0 <= i < |table| && table[i].Branch? ==>
         1 <= table[i].v <= vc && table[i].hi < i && table[i].lo < i && table[i].hi != table[i].lo)
    && (forall i :: 0 <= i < |table| - 1 ==> HasParent(table, i))
  }

  ghost predicate HasParent(table: seq<Entry>, i: nat) {
    exists j :: i < j < |table| && Child(table, j, i)
  }

  ghost predicate Child(table: seq<Entry>, j: nat, i: nat) {
    j < |table| && table[j].Branch? && (table[j].hi == i || table[j].lo == i)
  }

  /** The value of the diagram at entry i: true where no completed solution holds. */
  ghost predicate Value(table: seq<Entry>, vc: nat, i: nat, a: Assignment)
    requires Diagram(table, vc) && i < |table|
    decreases i
  {
    match table[i]
    case Leaf(b) => b
    case Branch(_, _, _) => Value(table, vc, Next(table, i, a), a)
  }

  ghost function Next(table: seq<Entry>, i: nat, a: Assignment): nat
    requires i < |table| && table[i].Branch?
  {
    if table[i].v in a then table[i].hi else table[i].lo
  }

  ghost predicate AgreeBelow(vc: nat, a: Assignment, b: Assignment) {
    forall v :: v <= vc ==> (v in a <==> v in b)
  }

  /** The clauses can be satisfied by choosing the variables above vc. */
  ghost predicate Extends(vc: nat, a: Assignment, f: seq<seq<int>>) {
    exists b: Assignment :: AgreeBelow(vc, a, b) && Models(b, f)
  }

  // ----------------------------------------------------------- renumbering

  /** A compiled formula: its literals up to |varMap| in absolute value stand for the variables in varMap. */
  datatype Compiled = Compiled(varMap: seq<nat>, clauses: seq<seq<int>>)

  function Renamed(varMap: seq<nat>, l: int): int {
    if 1 <= l <= |varMap| then varMap[l - 1] else if 1 <= -l <= |varMap| then -varMap[-l - 1] else l
  }

  function RenamedClause(varMap: seq<nat>, c: seq<int>): (d: seq<int>)
    ensures |d| == |c|
  {
    seq(|c|, k requires 0 <= k < |c| => Renamed(varMap, c[k]))
  }

  function RenamedAll(varMap: seq<nat>, f: seq<seq<int>>): (g: seq<seq<int>>)
    ensures |g| == |f|
  {
    seq(|f|, k requires 0 <= k < |f| => RenamedClause(varMap, f[k]))
  }

  lemma RenamedAppend(varMap: seq<nat>, f: seq<seq<int>>, g: seq<seq<int>>)
    ensures RenamedAll(varMap, f + g) == RenamedAll(varMap, f) + RenamedAll(varMap, g)
  {
  }

  /** get_additional_clauses, after the compilation: maps the variables back and leaves the auxiliary ones alone. */
  method MapBack(rep: Compiled) returns (clauses: seq<seq<int>>)
    ensures clauses == RenamedAll(rep.varMap, rep.clauses)
  {
    clauses := [];
    for i := 0 to |rep.clauses|
      invariant clauses == RenamedAll(rep.varMap, rep.clauses)[..i]
    {
      var c := [];
      for j := 0 to |rep.clauses[i]|
        invariant c == RenamedClause(rep.varMap, rep.clauses[i])[..j]
      {
        var l := rep.clauses[i][j];
        var v := VarOf(l);
        if 1 <= v < |rep.varMap| + 1 {
          var m: int := rep.varMap[v - 1];
          c := c + [if l > 0 then m else -m];
        } else {
          c := c + [l];
        }
      }
      assert c == RenamedClause(rep.varMap, rep.clauses[i]);
      clauses := clauses + [c];
    }
  }

  ghost predicate SupportOk(table: seq<Entry>, vc: nat, support: seq<nat>) {
    && NoDuplicates(support) && (forall v :: v in support ==> 1 <= v <= vc)
    && forall i :: 0 <= i < |table| && table[i].Branch? ==> table[i].v in support
  }

  /** There are at most vc variables, so auxiliary variables are left alone. */
  lemma {:induction false} SupportSize(vc: nat, support: seq<nat>)
    requires NoDuplicates(support) && forall k :: 0 <= k < |support| ==> 1 <= support[k] <= vc
    ensures |support| <= vc
    decreases vc
  {
    if support == [] {
    } else if exists k :: 0 <= k < |support| && support[k] == vc {
      var k :| 0 <= k < |support| && support[k] == vc;
      SupportSize(vc - 1, support[..k] + support[k + 1..]);
    } else {
      assert support[0] >= 1;
      SupportSize(vc - 1, support);
    }
  }

  /** The numbers the compiler gives to the variables of the support. */
  ghost predicate Numbers(vars: map<nat, int>, support: seq<nat>, n: nat)
    requires n <= |support|
  {
    && (forall v :: v in support[..n] ==> v in vars)
    && forall v :: v in vars ==> 1 <= vars[v] <= n && support[vars[v] - 1] == v
  }

  method NumberSupport(support: seq<nat>) returns (vars: map<nat, int>)
    requires NoDuplicates(support)
    ensures Numbers(vars, support, |support|)
  {
    vars := map[];
    for i := 0 to |support|
      invariant Numbers(vars, support, i)
    {
      assert support[..i + 1] == support[..i] + [support[i]];
      vars := vars[support[i] := i + 1];
    }
  }

  lemma NumberOf(vars: map<nat, int>, support: seq<nat>, v: nat)
    requires Numbers(vars, support, |support|) && v in support
    ensures v in vars && 1 <= vars[v] <= |support| && support[vars[v] - 1] == v
  {
    assert support[..|support|] == support;
  }

  lemma SupportBounded(table: seq<Entry>, vc: nat, support: seq<nat>)
    requires SupportOk(table, vc, support)
    ensures |support| <= vc
  {
    assert forall k :: 0 <= k < |support| ==> support[k] in support;
    SupportSize(vc, support);
  }

  // ---------------------------------------------------- MiniSat-style encoding

  /** The variable standing for the value of entry i. */
  function NodeVar(vc: nat, i: nat): int {
    vc + 2 + i
  }

  /** The clauses of entry i, over the original variables. */
  function NodeClauses(table: seq<Entry>, vc: nat, i: nat): seq<seq<int>>
    requires i < |table|
  {
    var n := NodeVar(vc, i);
    match table[i]
    case Leaf(b) => [[if b then n else -n]]
    case Branch(v, hi, lo) =>
      var x: int, t, f := v, NodeVar(vc, hi), NodeVar(vc, lo);
      [[-t, -x, n], [t, -x, -n], [-f, x, n], [f, x, -n], [-t, -f, n], [t, f, -n]]
  }

  function NodeClausesUpTo(table: seq<Entry>, vc: nat, n: nat): seq<seq<int>>
    requires n <= |table|
  {
    if n == 0 then [] else NodeClausesUpTo(table, vc, n - 1) + NodeClauses(table, vc, n - 1)
  }

  function MinisatClauses(table: seq<Entry>, vc: nat): seq<seq<int>>
    requires table != []
  {
    [[NodeVar(vc, |table| - 1)]] + NodeClausesUpTo(table, vc, |table|)
  }

  lemma RenamedNone(varMap: seq<nat>)
    ensures RenamedAll(varMap, []) == []
  {
  }

  lemma RenamedUnit(varMap: seq<nat>, l: int)
    ensures RenamedAll(varMap, [[l]]) == [[Renamed(varMap, l)]]
  {
    assert RenamedClause(varMap, [l]) == [Renamed(varMap, l)];
  }

  lemma RenamedTriple(varMap: seq<nat>, a: int, b: int, c: int)
    ensures RenamedClause(varMap, [a, b, c]) == [Renamed(varMap, a), Renamed(varMap, b), Renamed(varMap, c)]
  {
  }

  lemma RenamedBranch(varMap: seq<nat>, n: int, t: int, f: int, x: int, v: int)
    requires n > |varMap| && t > |varMap| && f > |varMap| && 1 <= x <= |varMap| && varMap[x - 1] == v
    ensures RenamedAll(varMap, [[-t, -x, n], [t, -x, -n], [-f, x, n], [f, x, -n], [-t, -f, n], [t, f, -n]])
      == [[-t, -v, n], [t, -v, -n], [-f, v, n], [f, v, -n], [-t, -f, n], [t, f, -n]]
  {
    RenamedTriple(varMap, -t, -x, n);
    RenamedTriple(varMap, t, -x, -n);
    RenamedTriple(varMap, -f, x, n);
    RenamedTriple(varMap, f, x, -n);
    RenamedTriple(varMap, -t, -f, n);
    RenamedTriple(varMap, t, f, -n);
    hide RenamedClause;
  }

  /** encode_negated_cnf. */
  method EncodeNegatedCnf(table: seq<Entry>, vc: nat, support: seq<nat>) returns (rep: Compiled)
    requires Diagram(table, vc) && SupportOk(table, vc, support)
    ensures RenamedAll(rep.varMap, rep.clauses) == MinisatClauses(table, vc)
  {
    hide RenamedAll;
    hide NodeClauses;
    hide Numbers;
    var vars := NumberSupport(support);
    SupportBounded(table, vc, support);
    var nodes, numNodes := NumberNodes(table, vc);
    var clauses := [[numNodes]];
    RenamedUnit(support, numNodes);
    for i := 0 to |table|
      invariant RenamedAll(support, clauses) == [[NodeVar(vc, |table| - 1)]] + NodeClausesUpTo(table, vc, i)
    {
      var more;
      match table[i] {
        case Leaf(b) =>
          more := ConstantRule(table, vc, support, nodes, i);
        case Branch(v, hi, lo) =>
          NumberOf(vars, support, v);
          more := NodeRule(table, vc, support, nodes, i, vars[v]);
      }
      RenamedAppend(support, clauses, more);
      clauses := clauses + more;
    }
    rep := Compiled(support, clauses);
  }

  /** Gives every entry the next number after vc + 1. */
  method NumberNodes(table: seq<Entry>, vc: nat) returns (nodes: seq<int>, numNodes: int)
    ensures |nodes| == |table| && numNodes == vc + 1 + |table| && forall k :: 0 <= k < |nodes| ==> nodes[k] == NodeVar(vc, k)
  {
    nodes := [];
    numNodes := vc + 1;
    for i := 0 to |table|
      invariant numNodes == vc + 1 + i && |nodes| == i && forall k :: 0 <= k < i ==> nodes[k] == NodeVar(vc, k)
    {
      numNodes := numNodes + 1;
      nodes := nodes + [numNodes];
    }
  }

  method ConstantRule(table: seq<Entry>, vc: nat, support: seq<nat>, nodes: seq<int>, i: nat) returns (more: seq<seq<int>>)
    requires |support| <= vc && |nodes| == |table| && i < |table| && table[i].Leaf? && nodes[i] == NodeVar(vc, i)
    ensures RenamedAll(support, more) == NodeClauses(table, vc, i)
  {
    var l := if table[i].value then nodes[i] else -nodes[i];
    RenamedUnit(support, l);
    more := [[l]];
  }

  /** The six clauses B1 to B6 of a node. */
  method NodeRule(table: seq<Entry>, vc: nat, support: seq<nat>, nodes: seq<int>, i: nat, x: int) returns (more: seq<seq<int>>)
    requires Diagram(table, vc) && |support| <= vc && |nodes| == |table| && i < |table| && table[i].Branch?
    requires forall k :: 0 <= k < |nodes| ==> nodes[k] == NodeVar(vc, k)
    requires 1 <= x <= |support| && support[x - 1] == table[i].v
    ensures RenamedAll(support, more) == NodeClauses(table, vc, i)
  {
    hide RenamedAll;
    var n, t, f := nodes[i], nodes[table[i].hi], nodes[table[i].lo];
    RenamedBranch(support, n, t, f, x, table[i].v);
    more := [[-t, -x, n], [t, -x, -n], [-f, x, n], [f, x, -n], [-t, -f, n], [t, f, -n]];
  }

  lemma {:induction false} UpToContains(table: seq<Entry>, vc: nat, n: nat, c: seq<int>)
    requires n <= |table|
    ensures c in NodeClausesUpTo(table, vc, n) <==> exists i :: 0 <= i < n && c in NodeClauses(table, vc, i)
  {
    if n > 0 {
      UpToContains(table, vc, n - 1, c);
    }
  }

  /** The clauses of one entry say that its variable has the value its children's variables determine. */
  lemma NodeMeaning(table: seq<Entry>, vc: nat, i: nat, b: Assignment)
    requires Diagram(table, vc) && i < |table|
    ensures Models(b, NodeClauses(table, vc, i)) <==>
      (NodeVar(vc, i) in b <==> match table[i] case Leaf(x) => x case Branch(_, _, _) => NodeVar(vc, Next(table, i, b)) in b)
  {
    var n := NodeVar(vc, i);
    match table[i] {
      case Leaf(x) =>
        var c := [if x then n else -n];
        assert NodeClauses(table, vc, i) == [c] && c[0] in c && c in [c];
        assert Satisfies(b, c) <==> Holds(b, c[0]);
      case Branch(v, hi, lo) =>
        ClauseMeaning(b, [-NodeVar(vc, hi), -(v as int), n]);
        ClauseMeaning(b, [NodeVar(vc, hi), -(v as int), -n]);
        ClauseMeaning(b, [-NodeVar(vc, lo), v as int, n]);
        ClauseMeaning(b, [NodeVar(vc, lo), v as int, -n]);
        ClauseMeaning(b, [-NodeVar(vc, hi), -NodeVar(vc, lo), n]);
        ClauseMeaning(b, [NodeVar(vc, hi), NodeVar(vc, lo), -n]);
        SixClauses(b, NodeClauses(table, vc, i));
    }
  }

  lemma ClauseMeaning(b: Assignment, c: seq<int>)
    requires |c| == 3
    ensures Satisfies(b, c) <==> Holds(b, c[0]) || Holds(b, c[1]) || Holds(b, c[2])
  {
    assert c[0] in c && c[1] in c && c[2] in c;
  }

  lemma SixClauses(b: Assignment, f: seq<seq<int>>)
    requires |f| == 6
    ensures Models(b, f) <==>
      Satisfies(b, f[0]) && Satisfies(b, f[1]) && Satisfies(b, f[2]) && Satisfies(b, f[3]) && Satisfies(b, f[4]) && Satisfies(b, f[5])
  {
    assert forall k :: 0 <= k < 6 ==> f[k] in f;
  }

  /** The assignment that gives every node variable the value of its entry. */
  ghost function NodeValues(table: seq<Entry>, vc: nat, a: Assignment): Assignment
    requires Diagram(table, vc)
  {
    iset x: int | if vc + 2 <= x < vc + 2 + |table| then Value(table, vc, x - vc - 2, a) else x in a
  }

  lemma {:induction false} ValueBelow(table: seq<Entry>, vc: nat, i: nat, a: Assignment, b: Assignment)
    requires Diagram(table, vc) && i < |table| && AgreeBelow(vc, a, b)
    ensures Value(table, vc, i, a) == Value(table, vc, i, b)
    decreases i
  {
    if table[i].Branch? {
      ValueBelow(table, vc, Next(table, i, a), a, b);
    }
  }

  /** In every model the node variables have the values of their entries: the extension is unique. */
  lemma {:induction false} MinisatUnique(table: seq<Entry>, vc: nat, b: Assignment, i: nat)
    requires Diagram(table, vc) && i < |table| && Models(b, MinisatClauses(table, vc))
    ensures NodeVar(vc, i) in b <==> Value(table, vc, i, b)
    decreases i
  {
    UpToModels(table, vc, b, i);
    NodeMeaning(table, vc, i, b);
    if table[i].Branch? {
      MinisatUnique(table, vc, b, Next(table, i, b));
    }
  }

  lemma UpToModels(table: seq<Entry>, vc: nat, b: Assignment, i: nat)
    requires table != [] && i < |table| && Models(b, MinisatClauses(table, vc))
    ensures Models(b, NodeClauses(table, vc, i))
  {
    forall c | c in NodeClauses(table, vc, i) ensures Satisfies(b, c) {
      UpToContains(table, vc, |table|, c);
    }
  }

  lemma NodeValuesFit(table: seq<Entry>, vc: nat, a: Assignment, i: nat)
    requires Diagram(table, vc) && i < |table|
    ensures Models(NodeValues(table, vc, a), NodeClauses(table, vc, i))
  {
    var b := NodeValues(table, vc, a);
    NodeMeaning(table, vc, i, b);
    assert NodeVar(vc, i) in b <==> Value(table, vc, i, a);
    if table[i].Branch? {
      assert Next(table, i, b) == Next(table, i, a);
      assert NodeVar(vc, Next(table, i, b)) in b <==> Value(table, vc, Next(table, i, a), a);
    }
  }

  lemma MinisatModel(table: seq<Entry>, vc: nat, a: Assignment)
    requires Diagram(table, vc) && Value(table, vc, |table| - 1, a)
    ensures Models(NodeValues(table, vc, a), MinisatClauses(table, vc))
  {
    var b := NodeValues(table, vc, a);
    var top := [NodeVar(vc, |table| - 1)];
    assert Holds(b, top[0]);
    hide NodeValues;
    hide Value;
    forall c | c in MinisatClauses(table, vc) ensures Satisfies(b, c) {
      if c != top {
        UpToContains(table, vc, |table|, c);
        var i :| 0 <= i < |table| && c in NodeClauses(table, vc, i);
        NodeValuesFit(table, vc, a, i);
      } else {
        assert top[0] in top;
      }
    }
  }

  /** The MiniSat-style clauses extend an assignment exactly when the diagram is true there. */
  lemma MinisatCorrect(table: seq<Entry>, vc: nat, a: Assignment)
    requires Diagram(table, vc)
    ensures Extends(vc, a, MinisatClauses(table, vc)) <==> Value(table, vc, |table| - 1, a)
  {
    var root := |table| - 1;
    var f := MinisatClauses(table, vc);
    var top := [NodeVar(vc, root)];
    assert f[0] == top && top in f;
    hide MinisatClauses;
    hide Value;
    hide Diagram;
    if Extends(vc, a, f) {
      var b: Assignment :| AgreeBelow(vc, a, b) && Models(b, f);
      assert Satisfies(b, top) && forall l :: l in top ==> l == NodeVar(vc, root);
      MinisatUnique(table, vc, b, root);
      ValueBelow(table, vc, root, a, b);
    }
    if Value(table, vc, root, a) {
      MinisatModel(table, vc, a);
      assert AgreeBelow(vc, a, NodeValues(table, vc, a));
    }
  }

  // ------------------------------------------------------ path-based encoding

  /** The last auxiliary variable given out before entry i: a leaf takes one, a branch two for its edges and one more. */
  function Before(table: seq<Entry>, vc: nat, i: nat): (n: int)
    requires i <= |table|
    ensures n >= vc + 1 + i
  {
    if i == 0 then vc + 1 else Before(table, vc, i - 1) + if table[i - 1].Leaf? then 1 else 3
  }

  function ThenEdge(table: seq<Entry>, vc: nat, i: nat): int
    requires i < |table|
  {
    Before(table, vc, i) + 1
  }

  function ElseEdge(table: seq<Entry>, vc: nat, i: nat): int
    requires i < |table|
  {
    Before(table, vc, i) + 2
  }

  function PathNode(table: seq<Entry>, vc: nat, i: nat): int
    requires i < |table|
  {
    Before(table, vc, i) + if table[i].Leaf? then 1 else 3
  }

  lemma {:induction false} BeforeMonotone(table: seq<Entry>, vc: nat, i: nat, j: nat)
    requires i < j <= |table|
    ensures PathNode(table, vc, i) <= Before(table, vc, j)
  {
    if i < j - 1 {
      BeforeMonotone(table, vc, i, j - 1);
    }
  }

  /** The edges that lead to entry i, from the entries below n. */
  function Incoming(table: seq<Entry>, vc: nat, i: nat, n: nat): seq<int>
    requires n <= |table|
  {
    if n == 0 then []
    else
      Incoming(table, vc, i, n - 1) +
      match table[n - 1]
      case Leaf(_) => []
      case Branch(_, hi, lo) =>
        (if hi == i then [ThenEdge(table, vc, n - 1)] else []) + if lo == i then [ElseEdge(table, vc, n - 1)] else []
  }

  /** The clause for a constant entry. */
  function LeafClauses(table: seq<Entry>, vc: nat, i: nat): seq<seq<int>>
    requires i < |table|
  {
    match table[i]
    case Leaf(b) => [[if b then PathNode(table, vc, i) else -PathNode(table, vc, i)]]
    case Branch(_, _, _) => []
  }

  /** The clauses for a node: an edge is taken (T1), the one of the variable's value (P1), and some edge leads here (P2)
      unless this is the root. */
  function BranchClauses(table: seq<Entry>, vc: nat, i: nat): seq<seq<int>>
    requires i < |table|
  {
    match table[i]
    case Leaf(_) => []
    case Branch(v, _, _) =>
      var n, t, e, x: int := PathNode(table, vc, i), ThenEdge(table, vc, i), ElseEdge(table, vc, i), v;
      var incoming := Incoming(table, vc, i, |table|);
      [[-n, t, e], [-n, -x, t], [-n, x, e], if incoming == [] then [n] else [-n] + incoming]
  }

  /** The clauses for the two edges of a node: each implies where it comes from (T2), where it leads (T3) and its value (T4). */
  function EdgeClauses(table: seq<Entry>, vc: nat, i: nat): seq<seq<int>>
    requires Diagram(table, vc) && i < |table|
  {
    match table[i]
    case Leaf(_) => []
    case Branch(v, hi, lo) =>
      var n, t, e, x: int := PathNode(table, vc, i), ThenEdge(table, vc, i), ElseEdge(table, vc, i), v;
      [[-t, n], [-t, PathNode(table, vc, hi)], [-t, x], [-e, n], [-e, PathNode(table, vc, lo)], [-e, -x]]
  }

  function LeavesUpTo(table: seq<Entry>, vc: nat, n: nat): seq<seq<int>>
    requires n <= |table|
  {
    if n == 0 then [] else LeavesUpTo(table, vc, n - 1) + LeafClauses(table, vc, n - 1)
  }

  function BranchesUpTo(table: seq<Entry>, vc: nat, n: nat): seq<seq<int>>
    requires n <= |table|
  {
    if n == 0 then [] else BranchesUpTo(table, vc, n - 1) + BranchClauses(table, vc, n - 1)
  }

  function EdgesUpTo(table: seq<Entry>, vc: nat, n: nat): seq<seq<int>>
    requires Diagram(table, vc) && n <= |table|
  {
    if n == 0 then [] else EdgesUpTo(table, vc, n - 1) + EdgeClauses(table, vc, n - 1)
  }

  function PathClauses(table: seq<Entry>, vc: nat): seq<seq<int>>
    requires Diagram(table, vc)
  {
    LeavesUpTo(table, vc, |table|) + BranchesUpTo(table, vc, |table|) + EdgesUpTo(table, vc, |table|)
  }

  lemma {:induction false} PathsContain(table: seq<Entry>, vc: nat, n: nat, c: seq<int>)
    requires Diagram(table, vc) && n <= |table|
    ensures c in LeavesUpTo(table, vc, n) <==> exists i :: 0 <= i < n && c in LeafClauses(table, vc, i)
    ensures c in BranchesUpTo(table, vc, n) <==> exists i :: 0 <= i < n && c in BranchClauses(table, vc, i)
    ensures c in EdgesUpTo(table, vc, n) <==> exists i :: 0 <= i < n && c in EdgeClauses(table, vc, i)
  {
    hide LeafClauses;
    hide BranchClauses;
    hide EdgeClauses;
    hide Diagram;
    if n > 0 {
      PathsContain(table, vc, n - 1, c);
    }
  }

  lemma PathsModels(table: seq<Entry>, vc: nat, b: Assignment)
    requires Diagram(table, vc)
    ensures Models(b, PathClauses(table, vc)) <==> forall i :: 0 <= i < |table| ==>
      Models(b, LeafClauses(table, vc, i)) && Models(b, BranchClauses(table, vc, i)) && Models(b, EdgeClauses(table, vc, i))
  {
    hide LeafClauses;
    hide BranchClauses;
    hide EdgeClauses;
    hide Diagram;
    hide Satisfies;
    if Models(b, PathClauses(table, vc)) {
      forall i, c | 0 <= i < |table| && (c in LeafClauses(table, vc, i) || c in BranchClauses(table, vc, i) || c in EdgeClauses(table, vc, i))
        ensures Satisfies(b, c)
      {
        PathsContain(table, vc, |table|, c);
        assert c in PathClauses(table, vc);
      }
    }
    if forall i :: 0 <= i < |table| ==>
         Models(b, LeafClauses(table, vc, i)) && Models(b, BranchClauses(table, vc, i)) && Models(b, EdgeClauses(table, vc, i)) {
      forall c | c in PathClauses(table, vc) ensures Satisfies(b, c) {
        PathsContain(table, vc, |table|, c);
      }
    }
  }

  // -------------------------------------------------------- what paths mean

  lemma PairMeaning(b: Assignment, c: seq<int>)
    requires |c| == 2
    ensures Satisfies(b, c) <==> Holds(b, c[0]) || Holds(b, c[1])
  {
    assert c[0] in c && c[1] in c;
  }

  /** Edges: true exactly where the node is true and the variable has their value, which makes the target true. */
  ghost predicate EdgesFit(table: seq<Entry>, vc: nat, i: nat, b: Assignment)
    requires Diagram(table, vc) && i < |table| && table[i].Branch?
  {
    var n, t, e := PathNode(table, vc, i), ThenEdge(table, vc, i), ElseEdge(table, vc, i);
    && (t in b ==> n in b && table[i].v in b && PathNode(table, vc, table[i].hi) in b)
    && (e in b ==> n in b && table[i].v !in b && PathNode(table, vc, table[i].lo) in b)
  }

  lemma EdgeMeaning(table: seq<Entry>, vc: nat, i: nat, b: Assignment)
    requires Diagram(table, vc) && i < |table| && table[i].Branch?
    ensures Models(b, EdgeClauses(table, vc, i)) <==> EdgesFit(table, vc, i, b)
  {
    var f := EdgeClauses(table, vc, i);
    SixClauses(b, f);
    forall k | 0 <= k < 6 ensures Satisfies(b, f[k]) <==> Holds(b, f[k][0]) || Holds(b, f[k][1]) {
      PairMeaning(b, f[k]);
    }
    hide Satisfies;
    hide Models;
  }

  lemma FourClauses(b: Assignment, f: seq<seq<int>>)
    requires |f| == 4
    ensures Models(b, f) <==> Satisfies(b, f[0]) && Satisfies(b, f[1]) && Satisfies(b, f[2]) && Satisfies(b, f[3])
  {
    assert forall k :: 0 <= k < 4 ==> f[k] in f;
  }

  /** Nodes: a true node's edge for the variable's value is true, and some incoming edge is, or the node is the root. */
  ghost predicate BranchFits(table: seq<Entry>, vc: nat, i: nat, b: Assignment)
    requires i < |table| && table[i].Branch?
  {
    var n, t, e, incoming := PathNode(table, vc, i), ThenEdge(table, vc, i), ElseEdge(table, vc, i), Incoming(table, vc, i, |table|);
    && (n in b ==> (if table[i].v in b then t in b else e in b))
    && (if incoming == [] then n in b else n in b ==> exists x :: x in incoming && x in b)
  }

  lemma IncomingStep(table: seq<Entry>, vc: nat, i: nat, n: nat, x: int)
    requires 0 < n <= |table|
    ensures x in Incoming(table, vc, i, n) <==> x in Incoming(table, vc, i, n - 1) || LeadsTo(table, vc, n - 1, x, i)
  {
  }

  lemma {:induction false} IncomingEdges(table: seq<Entry>, vc: nat, i: nat, n: nat, x: int)
    requires n <= |table|
    ensures x in Incoming(table, vc, i, n) <==> exists j :: 0 <= j < n && LeadsTo(table, vc, j, x, i)
  {
    hide LeadsTo;
    if n > 0 {
      IncomingEdges(table, vc, i, n - 1, x);
      IncomingStep(table, vc, i, n, x);
      hide Incoming;
      if x in Incoming(table, vc, i, n - 1) {
        var j :| 0 <= j < n - 1 && LeadsTo(table, vc, j, x, i);
        assert 0 <= j < n;
      }
    }
  }

  /** x is an edge of entry j that leads to entry i. */
  ghost predicate LeadsTo(table: seq<Entry>, vc: nat, j: nat, x: int, i: nat) {
    && j < |table| && table[j].Branch?
    && ((x == ThenEdge(table, vc, j) && table[j].hi == i) || (x == ElseEdge(table, vc, j) && table[j].lo == i))
  }

  lemma BranchMeaning(table: seq<Entry>, vc: nat, i: nat, b: Assignment)
    requires Diagram(table, vc) && i < |table| && table[i].Branch?
    ensures Models(b, BranchClauses(table, vc, i)) <==> BranchFits(table, vc, i, b)
  {
    var f := BranchClauses(table, vc, i);
    var n, incoming := PathNode(table, vc, i), Incoming(table, vc, i, |table|);
    FourClauses(b, f);
    ClauseMeaning(b, f[0]);
    ClauseMeaning(b, f[1]);
    ClauseMeaning(b, f[2]);
    forall x | x in incoming ensures x > 0 {
      IncomingEdges(table, vc, i, |table|, x);
    }
    LastClause(b, n, incoming, f[3]);
    hide Satisfies;
    hide Models;
    hide Incoming;
  }

  lemma LastClause(b: Assignment, n: int, incoming: seq<int>, c: seq<int>)
    requires n > 0 && (forall x :: x in incoming ==> x > 0) && c == if incoming == [] then [n] else [-n] + incoming
    ensures Satisfies(b, c) <==> if incoming == [] then n in b else n in b ==> exists x :: x in incoming && x in b
  {
    assert c[0] in c && forall x :: x in incoming ==> x in [-n] + incoming;
    if incoming != [] && n in b && exists x :: x in incoming && x in b {
      var x :| x in incoming && x in b;
      assert x in c && Holds(b, x);
    }
  }

  // ------------------------------------------------- correctness of the paths

  /** Entry i lies on the path that assignment a takes from entry r. */
  ghost predicate OnPath(table: seq<Entry>, vc: nat, r: nat, i: nat, a: Assignment)
    requires Diagram(table, vc) && r < |table|
    decreases r
  {
    i == r || (table[r].Branch? && OnPath(table, vc, Next(table, r, a), i, a))
  }

  lemma {:induction false} PathGoesOn(table: seq<Entry>, vc: nat, r: nat, i: nat, a: Assignment)
    requires Diagram(table, vc) && r < |table| && i < |table| && OnPath(table, vc, r, i, a)
    ensures Value(table, vc, i, a) == Value(table, vc, r, a) && i <= r
    ensures table[i].Branch? ==> OnPath(table, vc, r, Next(table, i, a), a)
    decreases r
  {
    if i != r {
      PathGoesOn(table, vc, Next(table, r, a), i, a);
    }
  }

  /** Below the root an entry on the path is there because of one above it. */
  lemma {:induction false} PathComesFrom(table: seq<Entry>, vc: nat, r: nat, i: nat, a: Assignment) returns (j: nat)
    requires Diagram(table, vc) && r < |table| && i < |table| && OnPath(table, vc, r, i, a) && i != r
    ensures j < |table| && table[j].Branch? && OnPath(table, vc, r, j, a) && Next(table, j, a) == i
    decreases r
  {
    var next := Next(table, r, a);
    if i == next {
      j := r;
    } else {
      j := PathComesFrom(table, vc, next, i, a);
    }
  }

  /** The assignment that makes true the nodes and edges of the path a takes, and the constant one. */
  ghost function PathValues(table: seq<Entry>, vc: nat, a: Assignment): Assignment
    requires Diagram(table, vc)
  {
    var root := |table| - 1;
    iset x: int |
      if x <= vc + 1 then x in a
      else exists i :: 0 <= i < |table| && Takes(table, vc, root, i, x, a)
  }

  ghost predicate Takes(table: seq<Entry>, vc: nat, root: nat, i: nat, x: int, a: Assignment)
    requires Diagram(table, vc) && root < |table| && i < |table|
  {
    match table[i]
    case Leaf(b) => x == PathNode(table, vc, i) && b
    case Branch(v, _, _) =>
      OnPath(table, vc, root, i, a) && (x == PathNode(table, vc, i) || x == if v in a then ThenEdge(table, vc, i) else ElseEdge(table, vc, i))
  }

  /** An auxiliary variable belongs to one entry only. */
  lemma OwnEntry(table: seq<Entry>, vc: nat, i: nat, j: nat, x: int)
    requires i < |table| && j < |table| && Before(table, vc, i) < x <= PathNode(table, vc, i) && Before(table, vc, j) < x <= PathNode(table, vc, j)
    ensures i == j
  {
    if i < j {
      BeforeMonotone(table, vc, i, j);
    } else if j < i {
      BeforeMonotone(table, vc, j, i);
    }
  }

  lemma TakesBounds(table: seq<Entry>, vc: nat, root: nat, i: nat, x: int, a: Assignment)
    requires Diagram(table, vc) && root < |table| && i < |table| && Takes(table, vc, root, i, x, a)
    ensures Before(table, vc, i) < x <= PathNode(table, vc, i)
  {
    hide Before;
    hide OnPath;
  }

  lemma PathValuesAt(table: seq<Entry>, vc: nat, a: Assignment, i: nat, x: int)
    requires Diagram(table, vc) && i < |table| && Before(table, vc, i) < x <= PathNode(table, vc, i)
    ensures x in PathValues(table, vc, a) <==> Takes(table, vc, |table| - 1, i, x, a)
  {
    if x in PathValues(table, vc, a) {
      var j :| 0 <= j < |table| && Takes(table, vc, |table| - 1, j, x, a);
      TakesBounds(table, vc, |table| - 1, j, x, a);
      OwnEntry(table, vc, i, j, x);
    }
  }

  /** The three variables of a branch in the path assignment. */
  lemma PathValuesBranch(table: seq<Entry>, vc: nat, a: Assignment, i: nat)
    requires Diagram(table, vc) && i < |table| && table[i].Branch?
    ensures var b := PathValues(table, vc, a); var here := OnPath(table, vc, |table| - 1, i, a);
      && (PathNode(table, vc, i) in b <==> here)
      && (ThenEdge(table, vc, i) in b <==> here && table[i].v in a)
      && (ElseEdge(table, vc, i) in b <==> here && table[i].v !in a)
      && (table[i].v in b <==> table[i].v in a)
  {
    PathValuesAt(table, vc, a, i, PathNode(table, vc, i));
    PathValuesAt(table, vc, a, i, ThenEdge(table, vc, i));
    PathValuesAt(table, vc, a, i, ElseEdge(table, vc, i));
    hide OnPath;
  }

  /** An entry on the path of an assignment with value true has its node variable set. */
  lemma PathValuesOnPath(table: seq<Entry>, vc: nat, a: Assignment, i: nat)
    requires Diagram(table, vc) && i < |table| && Value(table, vc, |table| - 1, a) && OnPath(table, vc, |table| - 1, i, a)
    ensures PathNode(table, vc, i) in PathValues(table, vc, a)
  {
    PathGoesOn(table, vc, |table| - 1, i, a);
    PathValuesAt(table, vc, a, i, PathNode(table, vc, i));
  }

  lemma PathEdgesFit(table: seq<Entry>, vc: nat, a: Assignment, i: nat)
    requires Diagram(table, vc) && i < |table| && table[i].Branch? && Value(table, vc, |table| - 1, a)
    ensures EdgesFit(table, vc, i, PathValues(table, vc, a))
  {
    PathValuesBranch(table, vc, a, i);
    if OnPath(table, vc, |table| - 1, i, a) {
      PathGoesOn(table, vc, |table| - 1, i, a);
      PathValuesOnPath(table, vc, a, Next(table, i, a));
    }
    hide PathValues;
    hide OnPath;
    hide Value;
  }

  lemma PathBranchFits(table: seq<Entry>, vc: nat, a: Assignment, i: nat)
    requires Diagram(table, vc) && i < |table| && table[i].Branch? && Value(table, vc, |table| - 1, a)
    ensures BranchFits(table, vc, i, PathValues(table, vc, a))
  {
    hide Value;
    hide PathValues;
    hide Incoming;
    hide OnPath;
    hide Before;
    var root := |table| - 1;
    PathValuesBranch(table, vc, a, i);
    if i == root {
      RootHasNoIncoming(table, vc);
      RootOnPath(table, vc, a);
    } else {
      OthersHaveIncoming(table, vc, i);
      if OnPath(table, vc, root, i, a) {
        var x := PathEdgeTo(table, vc, a, i);
      }
    }
  }

  lemma RootOnPath(table: seq<Entry>, vc: nat, a: Assignment)
    requires Diagram(table, vc)
    ensures OnPath(table, vc, |table| - 1, |table| - 1, a)
  {
  }

  /** The edge by which the path reaches an entry below the root. */
  lemma PathEdgeTo(table: seq<Entry>, vc: nat, a: Assignment, i: nat) returns (x: int)
    requires Diagram(table, vc) && i < |table| - 1 && OnPath(table, vc, |table| - 1, i, a)
    ensures x in Incoming(table, vc, i, |table|) && x in PathValues(table, vc, a)
  {
    hide PathValues;
    hide Incoming;
    hide OnPath;
    hide Before;
    var j := PathComesFrom(table, vc, |table| - 1, i, a);
    PathValuesBranch(table, vc, a, j);
    x := if table[j].v in a then ThenEdge(table, vc, j) else ElseEdge(table, vc, j);
    assert LeadsTo(table, vc, j, x, i);
    IncomingEdges(table, vc, i, |table|, x);
  }

  lemma RootHasNoIncoming(table: seq<Entry>, vc: nat)
    requires Diagram(table, vc)
    ensures Incoming(table, vc, |table| - 1, |table|) == []
  {
    var incoming := Incoming(table, vc, |table| - 1, |table|);
    if incoming != [] {
      var x := incoming[0];
      assert x in incoming;
      IncomingEdges(table, vc, |table| - 1, |table|, x);
    }
  }

  lemma OthersHaveIncoming(table: seq<Entry>, vc: nat, i: nat)
    requires Diagram(table, vc) && i < |table| - 1
    ensures Incoming(table, vc, i, |table|) != []
  {
    assert HasParent(table, i);
    var j :| i < j < |table| && Child(table, j, i);
    var x := if table[j].hi == i then ThenEdge(table, vc, j) else ElseEdge(table, vc, j);
    assert LeadsTo(table, vc, j, x, i);
    IncomingEdges(table, vc, i, |table|, x);
  }

  lemma PathLeafFits(table: seq<Entry>, vc: nat, a: Assignment, i: nat)
    requires Diagram(table, vc) && i < |table|
    ensures Models(PathValues(table, vc, a), LeafClauses(table, vc, i))
  {
    if table[i].Leaf? {
      var n := PathNode(table, vc, i);
      PathValuesAt(table, vc, a, i, n);
      var c := [if table[i].value then n else -n];
      assert LeafClauses(table, vc, i) == [c] && c[0] in c;
      assert Holds(PathValues(table, vc, a), c[0]);
    }
  }

  lemma PathModel(table: seq<Entry>, vc: nat, a: Assignment)
    requires Diagram(table, vc) && Value(table, vc, |table| - 1, a)
    ensures Models(PathValues(table, vc, a), PathClauses(table, vc)) && AgreeBelow(vc, a, PathValues(table, vc, a))
  {
    var b := PathValues(table, vc, a);
    assert AgreeBelow(vc, a, b);
    hide PathValues;
    hide Value;
    hide Models;
    hide Diagram;
    forall i | 0 <= i < |table|
      ensures Models(b, LeafClauses(table, vc, i)) && Models(b, BranchClauses(table, vc, i)) && Models(b, EdgeClauses(table, vc, i))
    {
      PathLeafFits(table, vc, a, i);
      if table[i].Branch? {
        PathBranchFits(table, vc, a, i);
        BranchMeaning(table, vc, i, b);
        PathEdgesFit(table, vc, a, i);
        EdgeMeaning(table, vc, i, b);
      } else {
        NoClauses(b);
      }
    }
    PathsModels(table, vc, b);
  }

  lemma NoClauses(b: Assignment)
    ensures Models(b, [])
  {
  }

  /** What a model of the path clauses satisfies at every branch. */
  lemma ModelFits(table: seq<Entry>, vc: nat, b: Assignment, i: nat)
    requires Diagram(table, vc) && i < |table| && Models(b, PathClauses(table, vc))
    ensures table[i].Branch? ==> BranchFits(table, vc, i, b) && EdgesFit(table, vc, i, b)
    ensures table[i] == Leaf(false) ==> PathNode(table, vc, i) !in b
  {
    PathsModels(table, vc, b);
    match table[i] {
      case Branch(_, _, _) =>
        BranchMeaning(table, vc, i, b);
        EdgeMeaning(table, vc, i, b);
      case Leaf(value) =>
        var c := [if value then PathNode(table, vc, i) else -PathNode(table, vc, i)];
        assert LeafClauses(table, vc, i) == [c] && c in [c];
        assert Satisfies(b, c) && forall l :: l in c ==> l == c[0];
    }
  }

  /** In a model of the path clauses a true node is a true entry. */
  lemma {:induction false} TrueNodeTrueEntry(table: seq<Entry>, vc: nat, b: Assignment, i: nat)
    requires Diagram(table, vc) && i < |table| && Models(b, PathClauses(table, vc)) && PathNode(table, vc, i) in b
    ensures Value(table, vc, i, b)
    decreases i
  {
    hide Models;
    hide PathClauses;
    hide Incoming;
    hide Before;
    ModelFits(table, vc, b, i);
    if table[i].Branch? {
      TrueNodeTrueEntry(table, vc, b, Next(table, i, b));
    }
  }

  /** In a model of the path clauses the nodes of branches that are true are exactly those on the path taken. */
  lemma {:induction false} TrueNodeOnPath(table: seq<Entry>, vc: nat, b: Assignment, i: nat)
    requires Diagram(table, vc) && i < |table| && Models(b, PathClauses(table, vc)) && table[i].Branch?
    ensures PathNode(table, vc, i) in b <==> OnPath(table, vc, |table| - 1, i, b)
    decreases |table| - i
  {
    hide Models;
    hide PathClauses;
    hide Incoming;
    hide Before;
    hide OnPath;
    var root := |table| - 1;
    ModelFits(table, vc, b, i);
    if i == root {
      RootHasNoIncoming(table, vc);
      RootOnPath(table, vc, b);
    } else {
      OthersHaveIncoming(table, vc, i);
      if PathNode(table, vc, i) in b {
        var j := TrueParent(table, vc, b, i);
        TrueNodeOnPath(table, vc, b, j);
        PathGoesOn(table, vc, root, j, b);
      }
      if OnPath(table, vc, root, i, b) {
        var j := PathComesFrom(table, vc, root, i, b);
        ParentAbove(table, vc, j, b);
        TrueNodeOnPath(table, vc, b, j);
        ModelFits(table, vc, b, j);
      }
    }
  }

  /** A true node below the root has a true parent whose variable leads to it. */
  lemma TrueParent(table: seq<Entry>, vc: nat, b: Assignment, i: nat) returns (j: nat)
    requires Diagram(table, vc) && i < |table| - 1 && Models(b, PathClauses(table, vc)) && table[i].Branch? && PathNode(table, vc, i) in b
    ensures i < j < |table| && table[j].Branch? && PathNode(table, vc, j) in b && Next(table, j, b) == i
  {
    hide Models;
    hide PathClauses;
    hide Incoming;
    hide Before;
    ModelFits(table, vc, b, i);
    OthersHaveIncoming(table, vc, i);
    var x :| x in Incoming(table, vc, i, |table|) && x in b;
    IncomingEdges(table, vc, i, |table|, x);
    j :| 0 <= j < |table| && LeadsTo(table, vc, j, x, i);
    ModelFits(table, vc, b, j);
  }

  lemma ParentAbove(table: seq<Entry>, vc: nat, j: nat, b: Assignment)
    requires Diagram(table, vc) && j < |table| && table[j].Branch?
    ensures Next(table, j, b) < j
  {
  }

  /** The path clauses extend an assignment exactly when the diagram is true there. */
  lemma PathsCorrect(table: seq<Entry>, vc: nat, a: Assignment)
    requires Diagram(table, vc)
    ensures Extends(vc, a, PathClauses(table, vc)) <==> Value(table, vc, |table| - 1, a)
  {
    var root := |table| - 1;
    if Extends(vc, a, PathClauses(table, vc)) {
      var b: Assignment :| AgreeBelow(vc, a, b) && Models(b, PathClauses(table, vc));
      TrueNodeOnPath(table, vc, b, root);
      TrueNodeTrueEntry(table, vc, b, root);
      ValueBelow(table, vc, root, a, b);
    }
    if Value(table, vc, root, a) {
      PathModel(table, vc, a);
    }
  }

  /** The extension of the path clauses is unique as well. */
  lemma PathsUnique(table: seq<Entry>, vc: nat, b: Assignment, i: nat)
    requires Diagram(table, vc) && i < |table| && Models(b, PathClauses(table, vc))
    ensures PathNode(table, vc, i) in b <==> if table[i].Leaf? then table[i].value else OnPath(table, vc, |table| - 1, i, b)
    ensures table[i].Branch? ==> (ThenEdge(table, vc, i) in b <==> OnPath(table, vc, |table| - 1, i, b) && table[i].v in b)
    ensures table[i].Branch? ==> (ElseEdge(table, vc, i) in b <==> OnPath(table, vc, |table| - 1, i, b) && table[i].v !in b)
  {
    ModelFits(table, vc, b, i);
    match table[i] {
      case Branch(_, _, _) =>
        TrueNodeOnPath(table, vc, b, i);
      case Leaf(value) =>
        PathsModels(table, vc, b);
        var c := [if value then PathNode(table, vc, i) else -PathNode(table, vc, i)];
        assert LeafClauses(table, vc, i) == [c] && c in [c];
        assert Satisfies(b, c) && forall l :: l in c ==> l == c[0];
    }
  }

  lemma RenamedPair(varMap: seq<nat>, a: int, b: int)
    ensures RenamedClause(varMap, [a, b]) == [Renamed(varMap, a), Renamed(varMap, b)]
  {
  }

  lemma RenamedAux(varMap: seq<nat>, c: seq<int>)
    requires forall k :: 0 <= k < |c| ==> VarOf(c[k]) > |varMap|
    ensures RenamedClause(varMap, c) == c
  {
  }

  lemma RenamedFour(varMap: seq<nat>, n: int, t: int, e: int, x: int, v: int, last: seq<int>)
    requires n > |varMap| && t > |varMap| && e > |varMap| && 1 <= x <= |varMap| && varMap[x - 1] == v
    requires RenamedClause(varMap, last) == last
    ensures RenamedAll(varMap, [[-n, t, e], [-n, -x, t], [-n, x, e], last]) == [[-n, t, e], [-n, -v, t], [-n, v, e], last]
  {
    RenamedTriple(varMap, -n, t, e);
    RenamedTriple(varMap, -n, -x, t);
    RenamedTriple(varMap, -n, x, e);
    hide RenamedClause;
  }

  lemma RenamedEdges(varMap: seq<nat>, n: int, t: int, e: int, hi: int, lo: int, x: int, v: int)
    requires n > |varMap| && t > |varMap| && e > |varMap| && hi > |varMap| && lo > |varMap| && 1 <= x <= |varMap| && varMap[x - 1] == v
    ensures RenamedAll(varMap, [[-t, n], [-t, hi], [-t, x], [-e, n], [-e, lo], [-e, -x]])
      == [[-t, n], [-t, hi], [-t, v], [-e, n], [-e, lo], [-e, -v]]
  {
    RenamedPair(varMap, -t, n);
    RenamedPair(varMap, -t, hi);
    RenamedPair(varMap, -t, x);
    RenamedPair(varMap, -e, n);
    RenamedPair(varMap, -e, lo);
    RenamedPair(varMap, -e, -x);
    hide RenamedClause;
  }

  /** path_based_encode_negated_cnf; nodes and edges are visited in the order of the table, which the source leaves open. */
  method PathEncodeNegatedCnf(table: seq<Entry>, vc: nat, support: seq<nat>) returns (rep: Compiled)
    requires Diagram(table, vc) && SupportOk(table, vc, support)
    ensures RenamedAll(rep.varMap, rep.clauses) == PathClauses(table, vc)
  {
    hide Numbers;
    hide RenamedAll;
    hide Incoming;
    var vars := NumberSupport(support);
    SupportBounded(table, vc, support);
    var leaves, incoming := BuildPaths(table, vc, support);
    var branches := NodePass(table, vc, support, vars, incoming);
    var edges := EdgePass(table, vc, support, vars);
    RenamedAppend(support, leaves, branches);
    RenamedAppend(support, leaves + branches, edges);
    rep := Compiled(support, leaves + branches + edges);
  }

  method NodePass(table: seq<Entry>, vc: nat, support: seq<nat>, vars: map<nat, int>,
                  incoming: seq<seq<int>>) returns (clauses: seq<seq<int>>)
    requires Diagram(table, vc) && SupportOk(table, vc, support) && |support| <= vc && Numbers(vars, support, |support|)
    requires |incoming| == |table| && forall i :: 0 <= i < |table| ==> incoming[i] == Incoming(table, vc, i, |table|)
    ensures RenamedAll(support, clauses) == BranchesUpTo(table, vc, |table|)
  {
    hide RenamedAll;
    hide Incoming;
    hide BranchClauses;
    hide EdgeClauses;
    hide Numbers;
    RenamedNone(support);
    clauses := [];
    for i := 0 to |table|
      invariant RenamedAll(support, clauses) == BranchesUpTo(table, vc, i)
    {
      LeafHasNone(table, vc, i);
      if table[i].Branch? {
        NumberOf(vars, support, table[i].v);
        var more := NodeRules(table, vc, support, i, vars[table[i].v], incoming[i]);
        RenamedAppend(support, clauses, more);
        clauses := clauses + more;
      }
    }
  }

  method EdgePass(table: seq<Entry>, vc: nat, support: seq<nat>, vars: map<nat, int>) returns (clauses: seq<seq<int>>)
    requires Diagram(table, vc) && SupportOk(table, vc, support) && |support| <= vc && Numbers(vars, support, |support|)
    ensures RenamedAll(support, clauses) == EdgesUpTo(table, vc, |table|)
  {
    hide RenamedAll;
    hide BranchClauses;
    hide EdgeClauses;
    hide Numbers;
    RenamedNone(support);
    clauses := [];
    for i := 0 to |table|
      invariant RenamedAll(support, clauses) == EdgesUpTo(table, vc, i)
    {
      LeafHasNone(table, vc, i);
      if table[i].Branch? {
        NumberOf(vars, support, table[i].v);
        var more := EdgeRules(table, vc, support, i, vars[table[i].v]);
        RenamedAppend(support, clauses, more);
        clauses := clauses + more;
      }
    }
  }

  lemma LeafHasNone(table: seq<Entry>, vc: nat, i: nat)
    requires Diagram(table, vc) && i < |table|
    ensures table[i].Leaf? ==> BranchClauses(table, vc, i) == [] && EdgeClauses(table, vc, i) == []
  {
  }

  method NodeRules(table: seq<Entry>, vc: nat, support: seq<nat>, i: nat, x: int,
                   incoming: seq<int>) returns (more: seq<seq<int>>)
    requires Diagram(table, vc) && i < |table| && table[i].Branch? && |support| <= vc
    requires 1 <= x <= |support| && support[x - 1] == table[i].v && incoming == Incoming(table, vc, i, |table|)
    ensures RenamedAll(support, more) == BranchClauses(table, vc, i)
  {
    hide Incoming;
    hide RenamedAll;
    hide RenamedClause;
    hide Before;
    var n, t, e := PathNode(table, vc, i), ThenEdge(table, vc, i), ElseEdge(table, vc, i);
    var last := if |incoming| == 0 then [n] else [-n] + incoming;
    LastUnchanged(table, vc, support, i, last);
    RenamedFour(support, n, t, e, x, table[i].v, last);
    more := [[-n, t, e], [-n, -x, t], [-n, x, e], last];
  }

  lemma LastUnchanged(table: seq<Entry>, vc: nat, support: seq<nat>, i: nat, last: seq<int>)
    requires Diagram(table, vc) && i < |table| && table[i].Branch? && |support| <= vc
    requires var n, incoming := PathNode(table, vc, i), Incoming(table, vc, i, |table|); last == if incoming == [] then [n] else [-n] + incoming
    ensures RenamedClause(support, last) == last
  {
    IncomingAux(table, vc, i);
    RenamedAux(support, last);
  }

  method EdgeRules(table: seq<Entry>, vc: nat, support: seq<nat>, i: nat, x: int) returns (more: seq<seq<int>>)
    requires Diagram(table, vc) && i < |table| && table[i].Branch? && |support| <= vc
    requires 1 <= x <= |support| && support[x - 1] == table[i].v
    ensures RenamedAll(support, more) == EdgeClauses(table, vc, i)
  {
    var n, t, e := PathNode(table, vc, i), ThenEdge(table, vc, i), ElseEdge(table, vc, i);
    var hi, lo := PathNode(table, vc, table[i].hi), PathNode(table, vc, table[i].lo);
    RenamedEdges(support, n, t, e, hi, lo, x, table[i].v);
    more := [[-t, n], [-t, hi], [-t, x], [-e, n], [-e, lo], [-e, -x]];
  }

  lemma IncomingAux(table: seq<Entry>, vc: nat, i: nat)
    requires Diagram(table, vc) && i < |table|
    ensures forall k :: 0 <= k < |Incoming(table, vc, i, |table|)| ==> Incoming(table, vc, i, |table|)[k] > vc
  {
    var incoming := Incoming(table, vc, i, |table|);
    forall k | 0 <= k < |incoming| ensures incoming[k] > vc {
      assert incoming[k] in incoming;
      IncomingEdges(table, vc, i, |table|, incoming[k]);
    }
  }

  /** The first pass: numbers nodes and edges, files each edge under its target and emits the clauses of the constants. */
  method BuildPaths(table: seq<Entry>, vc: nat, support: seq<nat>) returns (clauses: seq<seq<int>>, incoming: seq<seq<int>>)
    requires Diagram(table, vc) && |support| <= vc
    ensures RenamedAll(support, clauses) == LeavesUpTo(table, vc, |table|)
    ensures |incoming| == |table| && forall i :: 0 <= i < |table| ==> incoming[i] == Incoming(table, vc, i, |table|)
  {
    hide RenamedAll;
    RenamedNone(support);
    clauses := [];
    incoming := seq(|table|, i => []);
    var aux := vc + 1;
    for i := 0 to |table|
      invariant aux == Before(table, vc, i) && RenamedAll(support, clauses) == LeavesUpTo(table, vc, i)
      invariant |incoming| == |table| && forall k :: 0 <= k < |table| ==> incoming[k] == Incoming(table, vc, k, i)
    {
      incoming := FileEdges(table, vc, i, aux, incoming);
      hide Incoming;
      match table[i] {
        case Leaf(b) =>
          aux := aux + 1;
          RenamedUnit(support, if b then aux else -aux);
          RenamedAppend(support, clauses, [[if b then aux else -aux]]);
          clauses := clauses + [[if b then aux else -aux]];
        case Branch(_, _, _) =>
          aux := aux + 3;
      }
    }
  }

  /** Files the edges of entry i, numbered from aux + 1, under their targets. */
  method FileEdges(table: seq<Entry>, vc: nat, i: nat, aux: int, incoming: seq<seq<int>>) returns (incoming': seq<seq<int>>)
    requires Diagram(table, vc) && i < |table| && aux == Before(table, vc, i)
    requires |incoming| == |table| && forall k :: 0 <= k < |table| ==> incoming[k] == Incoming(table, vc, k, i)
    ensures |incoming'| == |table| && forall k :: 0 <= k < |table| ==> incoming'[k] == Incoming(table, vc, k, i + 1)
  {
    incoming' := incoming;
    match table[i] {
      case Leaf(_) =>
      case Branch(_, hi, lo) =>
        incoming' := incoming'[hi := incoming'[hi] + [aux + 1]];
        incoming' := incoming'[lo := incoming'[lo] + [aux + 2]];
    }
  }

  // ------------------------------------------------------------------- cubes

  /** Variable v is not tested from entry i on. */
  ghost predicate Untested(table: seq<Entry>, vc: nat, i: nat, v: nat)
    requires Diagram(table, vc) && i < |table|
    decreases i
  {
    match table[i]
    case Leaf(_) => true
    case Branch(w, hi, lo) => w != v && Untested(table, vc, hi, v) && Untested(table, vc, lo, v)
  }

  /** No path tests a variable twice. */
  ghost predicate ReadOnce(table: seq<Entry>, vc: nat)
    requires Diagram(table, vc)
  {
    forall i :: 0 <= i < |table| && table[i].Branch? ==>
      Untested(table, vc, table[i].hi, table[i].v) && Untested(table, vc, table[i].lo, table[i].v)
  }

  function Fixed(cubes: seq<seq<int>>, v: nat, bit: int): (r: seq<seq<int>>)
    requires forall k :: 0 <= k < |cubes| ==> v < |cubes[k]|
    ensures |r| == |cubes|
  {
    seq(|cubes|, k requires 0 <= k < |cubes| => cubes[k][v := bit])
  }

  /** The cubes of the completed solutions: the paths to false of the negation, with 2 for the variables not tested. */
  ghost function CubesAt(table: seq<Entry>, vc: nat, i: nat): (r: seq<seq<int>>)
    requires Diagram(table, vc) && i < |table|
    ensures forall k :: 0 <= k < |r| ==> |r[k]| == vc + 1
    decreases i
  {
    match table[i]
    case Leaf(true) => []
    case Leaf(false) => [seq(vc + 1, v => 2)]
    case Branch(v, hi, lo) => Fixed(CubesAt(table, vc, hi), v, 1) + Fixed(CubesAt(table, vc, lo), v, 0)
  }

  ghost predicate InCube(a: Assignment, cube: seq<int>) {
    forall v :: 1 <= v < |cube| ==> (cube[v] == 1 ==> v in a) && (cube[v] == 0 ==> v !in a)
  }

  lemma {:induction false} UntestedFree(table: seq<Entry>, vc: nat, i: nat, v: nat, k: nat)
    requires Diagram(table, vc) && i < |table| && Untested(table, vc, i, v) && v <= vc && k < |CubesAt(table, vc, i)|
    ensures CubesAt(table, vc, i)[k][v] == 2
    decreases i
  {
    if table[i].Branch? {
      var n := |CubesAt(table, vc, table[i].hi)|;
      if k < n {
        UntestedFree(table, vc, table[i].hi, v, k);
      } else {
        UntestedFree(table, vc, table[i].lo, v, k - n);
      }
    }
  }

  /** An assignment lies in a cube exactly when the diagram is false there. */
  lemma {:induction false} CubesCover(table: seq<Entry>, vc: nat, i: nat, a: Assignment)
    requires Diagram(table, vc) && ReadOnce(table, vc) && i < |table|
    ensures Value(table, vc, i, a) <==> forall k :: 0 <= k < |CubesAt(table, vc, i)| ==> !InCube(a, CubesAt(table, vc, i)[k])
    decreases i
  {
    match table[i] {
      case Leaf(b) =>
        if !b {
          assert InCube(a, CubesAt(table, vc, i)[0]);
        }
      case Branch(v, hi, lo) =>
        CubesCover(table, vc, hi, a);
        CubesCover(table, vc, lo, a);
        var t, e := CubesAt(table, vc, hi), CubesAt(table, vc, lo);
        forall k | 0 <= k < |t| ensures InCube(a, t[k][v := 1]) <==> v in a && InCube(a, t[k]) {
          UntestedFree(table, vc, hi, v, k);
          FixedIn(a, t[k], v, 1);
        }
        forall k | 0 <= k < |e| ensures InCube(a, e[k][v := 0]) <==> v !in a && InCube(a, e[k]) {
          UntestedFree(table, vc, lo, v, k);
          FixedIn(a, e[k], v, 0);
        }
        hide InCube;
        SplitCubes(a, t, e, v, CubesAt(table, vc, i));
    }
  }

  lemma FixedIn(a: Assignment, cube: seq<int>, v: nat, bit: int)
    requires 1 <= v < |cube| && cube[v] == 2 && 0 <= bit <= 1
    ensures InCube(a, cube[v := bit]) <==> (v in a <==> bit == 1) && InCube(a, cube)
  {
    var c := cube[v := bit];
    if InCube(a, c) {
      assert c[v] == bit;
      forall u | 1 <= u < |cube| ensures (cube[u] == 1 ==> u in a) && (cube[u] == 0 ==> u !in a) {
        assert u != v ==> c[u] == cube[u];
      }
    }
  }

  lemma SplitCubes(a: Assignment, t: seq<seq<int>>, e: seq<seq<int>>, v: nat, cubes: seq<seq<int>>)
    requires (forall k :: 0 <= k < |t| ==> v < |t[k]|) && forall k :: 0 <= k < |e| ==> v < |e[k]|
    requires cubes == Fixed(t, v, 1) + Fixed(e, v, 0)
    requires forall k :: 0 <= k < |t| ==> (InCube(a, t[k][v := 1]) <==> v in a && InCube(a, t[k]))
    requires forall k :: 0 <= k < |e| ==> (InCube(a, e[k][v := 0]) <==> v !in a && InCube(a, e[k]))
    ensures (forall k :: 0 <= k < |cubes| ==> !InCube(a, cubes[k])) <==>
      if v in a then forall k :: 0 <= k < |t| ==> !InCube(a, t[k]) else forall k :: 0 <= k < |e| ==> !InCube(a, e[k])
  {
    hide InCube;
    assert forall k :: 0 <= k < |t| ==> cubes[k] == t[k][v := 1];
    assert forall k :: 0 <= k < |e| ==> cubes[|t| + k] == e[k][v := 0];
    assert forall k :: |t| <= k < |cubes| ==> cubes[k] == e[k - |t|][v := 0];
  }

  /** The clause that excludes a cube. */
  function CubeClause(cube: seq<int>, n: nat): seq<int>
    requires n <= |cube|
  {
    if n <= 1 then []
    else
      var v: int := n - 1;
      CubeClause(cube, n - 1) + if cube[v] == 0 then [v] else if cube[v] == 1 then [-v] else []
  }

  function CubeClauses(cubes: seq<seq<int>>): (r: seq<seq<int>>)
    ensures |r| == |cubes|
  {
    seq(|cubes|, k requires 0 <= k < |cubes| => CubeClause(cubes[k], |cubes[k]|))
  }

  lemma {:induction false} CubeClauseMeaning(a: Assignment, cube: seq<int>, n: nat)
    requires n <= |cube|
    ensures Satisfies(a, CubeClause(cube, n)) <==> exists v :: 1 <= v < n && ((cube[v] == 1 && v !in a) || (cube[v] == 0 && v in a))
  {
    if n > 1 {
      var v: int := n - 1;
      CubeClauseMeaning(a, cube, n - 1);
      var front, last := CubeClause(cube, n - 1), if cube[v] == 0 then [v] else if cube[v] == 1 then [-v] else [];
      SatisfiesAppend(a, front, last);
      assert last != [] ==> last[0] in last;
      assert Satisfies(a, last) <==> (cube[v] == 1 && v !in a) || (cube[v] == 0 && v in a);
    }
  }

  lemma SatisfiesAppend(a: Assignment, c: seq<int>, d: seq<int>)
    ensures Satisfies(a, c + d) <==> Satisfies(a, c) || Satisfies(a, d)
  {
    assert forall l :: l in c + d <==> l in c || l in d;
  }

  /** The clauses of the cubes hold exactly when the diagram is true. */
  lemma CubesCorrect(table: seq<Entry>, vc: nat, a: Assignment)
    requires Diagram(table, vc) && ReadOnce(table, vc)
    ensures Models(a, CubeClauses(CubesAt(table, vc, |table| - 1))) <==> Value(table, vc, |table| - 1, a)
  {
    var cubes := CubesAt(table, vc, |table| - 1);
    CubesCover(table, vc, |table| - 1, a);
    forall k | 0 <= k < |cubes| ensures Satisfies(a, CubeClauses(cubes)[k]) <==> !InCube(a, cubes[k]) {
      CubeClauseMeaning(a, cubes[k], |cubes[k]|);
    }
    hide InCube;
    hide Satisfies;
    hide CubesAt;
    var f := CubeClauses(cubes);
    assert forall k :: 0 <= k < |f| ==> f[k] in f;
    if forall k :: 0 <= k < |cubes| ==> Satisfies(a, f[k]) {
      forall c | c in f ensures Satisfies(a, c) {
        var k :| 0 <= k < |f| && f[k] == c;
      }
    }
  }

  /** The variables met up to the end of c, in the order in which they first occur. */
  function Met(varMap: seq<nat>, c: seq<int>): seq<nat> {
    if c == [] then varMap
    else
      var m, v := Met(varMap, c[..|c| - 1]), VarOf(c[|c| - 1]);
      if v in m then m else m + [v]
  }

  function MetAll(f: seq<seq<int>>): seq<nat> {
    if f == [] then [] else Met(MetAll(f[..|f| - 1]), f[|f| - 1])
  }

  lemma {:induction false} MetDistinct(varMap: seq<nat>, c: seq<int>)
    requires NoDuplicates(varMap)
    ensures NoDuplicates(Met(varMap, c)) && varMap <= Met(varMap, c)
    ensures forall v :: v in Met(varMap, c) <==> v in varMap || exists k :: 0 <= k < |c| && VarOf(c[k]) == v
  {
    if c != [] {
      MetDistinct(varMap, c[..|c| - 1]);
    }
  }

  /** The numbers of a compiled formula are those of different variables, and of all of its variables. */
  lemma {:induction false} NumbersDistinct(f: seq<seq<int>>)
    ensures NoDuplicates(MetAll(f)) && forall c, k :: c in f && 0 <= k < |c| ==> VarOf(c[k]) in MetAll(f)
  {
    if f != [] {
      var front, last := f[..|f| - 1], f[|f| - 1];
      NumbersDistinct(front);
      MetDistinct(MetAll(front), last);
      forall c, k | c in f && 0 <= k < |c| ensures VarOf(c[k]) in MetAll(f) {
        assert c in front || c == last;
      }
    }
  }

  /** compile_negated_cnf on the cubes of the diagram: each becomes a clause, its variables numbered as they first occur. */
  method CompileNegatedCnf(cubes: seq<seq<int>>) returns (rep: Compiled)
    ensures RenamedAll(rep.varMap, rep.clauses) == CubeClauses(cubes)
    ensures rep.varMap == MetAll(CubeClauses(cubes)) && NoDuplicates(rep.varMap)
  {
    hide Local;
    hide Met;
    hide CubeClause;
    ghost var f := CubeClauses(cubes);
    var varMap: seq<nat> := [];
    var clauses: seq<seq<int>> := [];
    for k := 0 to |cubes|
      invariant |clauses| == k && forall j :: 0 <= j < k ==> Local(varMap, clauses[j], f[j])
      invariant varMap == MetAll(f[..k])
    {
      ghost var varMap0 := varMap;
      assert f[..k + 1][..k] == f[..k];
      var c;
      varMap, c := CompileCube(varMap, cubes[k]);
      forall j | 0 <= j < k ensures Local(varMap, clauses[j], f[j]) {
        LocalGrows(varMap0, varMap, clauses[j], f[j]);
      }
      clauses := clauses + [c];
    }
    rep := Compiled(varMap, clauses);
    assert f[..|cubes|] == f;
    NumbersDistinct(f);
    LocalAll(varMap, clauses, f);
  }

  lemma LocalAll(varMap: seq<nat>, clauses: seq<seq<int>>, f: seq<seq<int>>)
    requires |clauses| == |f| && forall k :: 0 <= k < |f| ==> Local(varMap, clauses[k], f[k])
    ensures RenamedAll(varMap, clauses) == f
  {
  }

  /** c, in the numbers of varMap, stands for d. */
  ghost predicate Local(varMap: seq<nat>, c: seq<int>, d: seq<int>) {
    RenamedClause(varMap, c) == d && forall k :: 0 <= k < |c| ==> 1 <= VarOf(c[k]) <= |varMap|
  }

  lemma LocalGrows(varMap: seq<nat>, varMap': seq<nat>, c: seq<int>, d: seq<int>)
    requires Local(varMap, c, d) && varMap <= varMap'
    ensures Local(varMap', c, d)
  {
  }

  /** The number of variable v, a new one if it has none yet. */
  method NumberIn(varMap: seq<nat>, v: nat) returns (varMap': seq<nat>, at: nat)
    ensures varMap' == if v in varMap then varMap else varMap + [v]
    ensures at < |varMap'| && varMap'[at] == v
  {
    varMap', at := varMap, 0;
    while at < |varMap| && varMap[at] != v
      invariant 0 <= at <= |varMap| && v !in varMap[..at]
    {
      at := at + 1;
    }
    if at == |varMap| {
      assert varMap[..at] == varMap;
      varMap' := varMap + [v];
    }
  }

  lemma LocalMore(varMap: seq<nat>, c: seq<int>, d: seq<int>, l: int, x: int)
    requires Local(varMap, c, d) && 1 <= VarOf(l) <= |varMap| && Renamed(varMap, l) == x
    ensures Local(varMap, c + [l], d + [x])
  {
  }

  method CompileCube(varMap: seq<nat>, cube: seq<int>) returns (varMap': seq<nat>, c: seq<int>)
    ensures varMap <= varMap' && Local(varMap', c, CubeClause(cube, |cube|)) && varMap' == Met(varMap, CubeClause(cube, |cube|))
  {
    varMap', c := varMap, [];
    hide Local;
    hide Met;
    hide CubeClause;
    LocalNone(varMap);
    MetNone(varMap, cube);
    var i := 1;
    while i < |cube|
      invariant 1 <= i && (i <= |cube| || |cube| == 0)
      invariant varMap <= varMap' && Local(varMap', c, CubeClause(cube, if i <= |cube| then i else 0))
      invariant varMap' == Met(varMap, CubeClause(cube, if i <= |cube| then i else 0))
    {
      if cube[i] == 0 || cube[i] == 1 {
        ghost var map0, d := varMap', CubeClause(cube, i);
        var at: nat;
        varMap', at := NumberIn(varMap', i);
        LocalGrows(map0, varMap', c, d);
        var l := if cube[i] == 0 then at + 1 else -(at + 1);
        LocalMore(varMap', c, d, l, if cube[i] == 0 then i else -i);
        c := c + [l];
      }
      CubeClauseStep(varMap, cube, i);
      i := i + 1;
    }
  }

  lemma CubeClauseStep(varMap: seq<nat>, cube: seq<int>, i: nat)
    requires 1 <= i < |cube|
    ensures var c, d := CubeClause(cube, i + 1), CubeClause(cube, i);
      if cube[i] == 0 || cube[i] == 1 then
        && c == d + [if cube[i] == 0 then i as int else -(i as int)]
        && Met(varMap, c) == if i in Met(varMap, d) then Met(varMap, d) else Met(varMap, d) + [i]
      else c == d
  {
    var c, d := CubeClause(cube, i + 1), CubeClause(cube, i);
    if cube[i] == 0 || cube[i] == 1 {
      assert c[..|c| - 1] == d;
    }
  }

  lemma MetNone(varMap: seq<nat>, cube: seq<int>)
    ensures Met(varMap, []) == varMap && forall n :: 0 <= n <= 1 && n <= |cube| ==> CubeClause(cube, n) == []
  {
  }

  lemma LocalNone(varMap: seq<nat>)
    ensures Local(varMap, [], [])
  {
  }

  // ---------------------------------------------------------- interchangeable

  /** The three encodings of the same diagram can be satisfied for exactly the same values of the original variables: those
      that no completed solution covers. */
  lemma Interchangeable(table: seq<Entry>, vc: nat, a: Assignment)
    requires Diagram(table, vc) && ReadOnce(table, vc)
    ensures Extends(vc, a, CubeClauses(CubesAt(table, vc, |table| - 1))) <==> Value(table, vc, |table| - 1, a)
    ensures Extends(vc, a, MinisatClauses(table, vc)) <==> Value(table, vc, |table| - 1, a)
    ensures Extends(vc, a, PathClauses(table, vc)) <==> Value(table, vc, |table| - 1, a)
  {
    var root := |table| - 1;
    MinisatCorrect(table, vc, a);
    PathsCorrect(table, vc, a);
    var f := CubeClauses(CubesAt(table, vc, root));
    if Extends(vc, a, f) {
      var b: Assignment :| AgreeBelow(vc, a, b) && Models(b, f);
      CubesCorrect(table, vc, b);
      ValueBelow(table, vc, root, a, b);
    }
    CubesCorrect(table, vc, a);
    assert AgreeBelow(vc, a, a);
  }
}
