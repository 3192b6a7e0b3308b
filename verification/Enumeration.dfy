/** dagster/Worker.cpp: enumerating the solutions of one node, projected onto the variables of its outgoing interface. Every
    solution found is sent as a cube of interface literals, and its negation is added before the next search. */
module Enumeration {
  import opened Logic
  import opened Cdcl
  import opened Solver
  import opened SolverSteps
  import opened UnitPropagation
  import opened Scanning

  /** The tags a worker closes a round of work with; Failure stands for the exception of a solution that fails its check. */
  datatype Tag = Request | Poll | Failure

  ghost predicate CubeHolds(a: Assignment, cube: seq<int>) {
    forall k :: 0 <= k < |cube| ==> Holds(a, cube[k])
  }

  ghost predicate AgreeOn(a: Assignment, b: Assignment, vars: seq<nat>) {
    forall i :: 0 <= i < |vars| ==> (vars[i] in a <==> vars[i] in b)
  }

  /** a, restricted to the interface, is a projection of a model. */
  ghost predicate Projects(formula: seq<seq<int>>, vars: seq<nat>, a: Assignment) {
    exists b: Assignment :: Models(b, formula) && AgreeOn(a, b, vars)
  }

  function Negated(cube: seq<int>): seq<int> {
    seq(|cube|, i requires 0 <= i < |cube| => -cube[i])
  }

  function Blocks(cubes: seq<seq<int>>): seq<seq<int>> {
    seq(|cubes|, i requires 0 <= i < |cubes| => Negated(cubes[i]))
  }

  ghost predicate CubeShape(vc: nat, vars: seq<nat>, cube: seq<int>) {
    && (forall k :: 0 <= k < |cube| ==> LitOk(vc, cube[k]) && VarOf(cube[k]) in vars)
    && forall i, j :: 0 <= i < j < |cube| ==> VarOf(cube[i]) != VarOf(cube[j])
  }

  /** No assignment satisfies both cubes: they hold opposite literals. */
  ghost predicate Contradictory(c: seq<int>, d: seq<int>) {
    exists k :: 0 <= k < |c| && -c[k] in d
  }

  ghost predicate PairwiseContradictory(cubes: seq<seq<int>>) {
    forall i, j :: 0 <= i < j < |cubes| ==> Contradictory(cubes[i], cubes[j])
  }

  /** Every assignment of a cube extends, off the interface, to a model. */
  ghost predicate Inside(formula: seq<seq<int>>, vars: seq<nat>, cube: seq<int>) {
    forall a: Assignment :: CubeHolds(a, cube) ==> Projects(formula, vars, a)
  }

  /** The cubes cover the projections of all models. */
  ghost predicate Covers(formula: seq<seq<int>>, vars: seq<nat>, cubes: seq<seq<int>>) {
    forall a: Assignment :: Projects(formula, vars, a) ==> exists i :: 0 <= i < |cubes| && CubeHolds(a, cubes[i])
  }

  /** The solutions sent so far. */
  ghost predicate SentOk(vc: nat, formula: seq<seq<int>>, vars: seq<nat>, sent: seq<seq<int>>) {
    && (forall i :: 0 <= i < |sent| ==> CubeShape(vc, vars, sent[i]) && Inside(formula, vars, sent[i]))
    && PairwiseContradictory(sent)
  }

  function Pow2(n: nat): (p: nat)
    ensures p >= 1
  {
    if n == 0 then 1 else 2 * Pow2(n - 1)
  }

  // ------------------------------------------------------------- projection

  /** The literals the assignment gives to the interface variables. */
  function Projection(value: seq<int>, vc: nat, vars: seq<nat>): seq<int>
    requires |value| == vc + 1
  {
    if vars == [] then []
    else
      var v: int := vars[|vars| - 1];
      var rest := Projection(value, vc, vars[..|vars| - 1]);
      if v > vc || value[v] == 0 then rest else rest + [if value[v] == 1 then v else -v]
  }

  /** Exactly the true literals over interface variables are projected. */
  lemma {:induction false} ProjectionMembers(value: seq<int>, vc: nat, vars: seq<nat>)
    requires |value| == vc + 1 && InRange(value) && forall i :: 0 <= i < |vars| ==> vars[i] >= 1
    ensures forall x :: x in Projection(value, vc, vars) <==> LitOk(vc, x) && VarOf(x) in vars && Val(value, x) == 1
  {
    if vars != [] {
      var front := vars[..|vars| - 1];
      assert vars == front + [vars[|vars| - 1]];
      ProjectionMembers(value, vc, front);
    }
  }

  lemma {:induction false} ProjectionShape(value: seq<int>, vc: nat, vars: seq<nat>)
    requires |value| == vc + 1 && InRange(value) && forall i :: 0 <= i < |vars| ==> vars[i] >= 1
    requires NoDuplicates(vars)
    ensures CubeShape(vc, vars, Projection(value, vc, vars))
  {
    ProjectionMembers(value, vc, vars);
    var cube := Projection(value, vc, vars);
    assert forall k :: 0 <= k < |cube| ==> cube[k] in cube;
    if vars != [] {
      var front := vars[..|vars| - 1];
      assert vars == front + [vars[|vars| - 1]];
      ProjectionShape(value, vc, front);
    }
  }

  // ---------------------------------------------------------- one more cube

  /** Where the trimmed assignment says nothing, a is followed. */
  ghost function Overlay(a: Assignment, value: seq<int>): Assignment {
    iset v: int | if 0 <= v < |value| && value[v] != 0 then value[v] == 1 else v in a
  }

  lemma OverlayHolds(a: Assignment, value: seq<int>, x: int)
    requires Val(value, x) == 1 && x != 0
    ensures Holds(Overlay(a, value), x)
  {
  }

  /** The cube of an implicant is inside the projection of the models. */
  lemma CubeInside(formula: seq<seq<int>>, vc: nat, vars: seq<nat>, value: seq<int>)
    requires |value| == vc + 1 && InRange(value) && forall i :: 0 <= i < |vars| ==> vars[i] >= 1
    requires Implicant(value, formula) && value[0] == 0
    ensures Inside(formula, vars, Projection(value, vc, vars))
  {
    var cube := Projection(value, vc, vars);
    ProjectionMembers(value, vc, vars);
    forall a: Assignment | CubeHolds(a, cube) ensures Projects(formula, vars, a) {
      var b := Overlay(a, value);
      forall c | c in formula ensures Satisfies(b, c) {
        var k :| 0 <= k < |c| && Val(value, c[k]) == 1;
        OverlayHolds(a, value, c[k]);
      }
      forall i | 0 <= i < |vars| ensures vars[i] in a <==> vars[i] in b {
        var v: int := vars[i];
        if v <= vc && value[v] != 0 {
          var x := if value[v] == 1 then v else -v;
          assert x in cube;
          assert Holds(a, x);
        }
      }
      assert Models(b, formula) && AgreeOn(a, b, vars);
    }
  }

  /** A true literal of the clause blocking an earlier cube is projected: the new cube contradicts it. */
  lemma CubeContradicts(vc: nat, vars: seq<nat>, value: seq<int>, cube: seq<int>)
    requires |value| == vc + 1 && InRange(value) && forall i :: 0 <= i < |vars| ==> vars[i] >= 1
    requires CubeShape(vc, vars, cube) && SomeTrue(value, Negated(cube))
    ensures Contradictory(cube, Projection(value, vc, vars))
  {
    ProjectionMembers(value, vc, vars);
    var k :| 0 <= k < |cube| && Val(value, Negated(cube)[k]) == 1;
    assert -cube[k] in Projection(value, vc, vars);
  }

  lemma BlocksMore(cubes: seq<seq<int>>, cube: seq<int>)
    ensures Blocks(cubes + [cube]) == Blocks(cubes) + [Negated(cube)]
  {
  }

  lemma NegatedShape(vc: nat, vars: seq<nat>, cube: seq<int>)
    requires CubeShape(vc, vars, cube)
    ensures ClauseShape(vc, Negated(cube))
  {
  }

  /** The cube of a solution of the formula and the blocking clauses joins the ones sent before. */
  lemma SentMore(vc: nat, formula: seq<seq<int>>, vars: seq<nat>, sent: seq<seq<int>>, value: seq<int>)
    requires SentOk(vc, formula, vars, sent) && Implicant(value, formula + Blocks(sent))
    requires |value| == vc + 1 && value[0] == 0 && InRange(value)
    requires NoDuplicates(vars) && forall i :: 0 <= i < |vars| ==> vars[i] >= 1
    ensures SentOk(vc, formula, vars, sent + [Projection(value, vc, vars)])
  {
    var cube := Projection(value, vc, vars);
    forall c | c in formula ensures SomeTrue(value, c) {
      assert c in formula + Blocks(sent);
    }
    ProjectionShape(value, vc, vars);
    CubeInside(formula, vc, vars, value);
    var sent' := sent + [cube];
    forall i | 0 <= i < |sent| ensures Contradictory(sent[i], cube) {
      assert Negated(sent[i]) == Blocks(sent)[i];
      assert Negated(sent[i]) in formula + Blocks(sent);
      CubeContradicts(vc, vars, value, sent[i]);
    }
    hide Inside;
    hide CubeShape;
    hide Contradictory;
  }

  lemma SentShape(vc: nat, formula: seq<seq<int>>, vars: seq<nat>, sent: seq<seq<int>>)
    requires SentOk(vc, formula, vars, sent) && sent != []
    ensures CubeShape(vc, vars, sent[|sent| - 1])
  {
  }

  // ------------------------------------------------------------ completeness

  /** Once formula and blocking clauses together are unsatisfiable, every model falls in a cube. */
  lemma ExhaustedCovers(vc: nat, formula: seq<seq<int>>, vars: seq<nat>, sent: seq<seq<int>>)
    requires SentOk(vc, formula, vars, sent) && !Satisfiable(formula + Blocks(sent))
    ensures Covers(formula, vars, sent)
  {
    forall a: Assignment | Projects(formula, vars, a) ensures exists i :: 0 <= i < |sent| && CubeHolds(a, sent[i]) {
      var b: Assignment :| Models(b, formula) && AgreeOn(a, b, vars);
      assert !Models(b, formula + Blocks(sent));
      var c :| c in formula + Blocks(sent) && !Satisfies(b, c);
      assert c in Blocks(sent);
      var i :| 0 <= i < |sent| && Blocks(sent)[i] == c;
      Unblocked(b, sent[i]);
      SameCube(vc, a, b, vars, sent[i]);
    }
  }

  lemma Unblocked(b: Assignment, cube: seq<int>)
    requires !Satisfies(b, Negated(cube)) && forall k :: 0 <= k < |cube| ==> cube[k] != 0
    ensures CubeHolds(b, cube)
  {
    forall k | 0 <= k < |cube| ensures Holds(b, cube[k]) {
      assert Negated(cube)[k] in Negated(cube);
    }
  }

  lemma SameCube(vc: nat, a: Assignment, b: Assignment, vars: seq<nat>, cube: seq<int>)
    requires CubeShape(vc, vars, cube) && AgreeOn(a, b, vars) && CubeHolds(b, cube)
    ensures CubeHolds(a, cube)
  {
    forall k | 0 <= k < |cube| ensures Holds(a, cube[k]) {
      var i :| 0 <= i < |vars| && vars[i] == VarOf(cube[k]);
      assert vars[i] in a <==> vars[i] in b;
    }
  }

  /** The empty cube covers everything. */
  lemma EmptyCovers(formula: seq<seq<int>>, vars: seq<nat>, sent: seq<seq<int>>)
    requires sent != [] && sent[|sent| - 1] == []
    ensures Covers(formula, vars, sent)
  {
    var last := |sent| - 1;
    forall a: Assignment | Projects(formula, vars, a) ensures exists i :: 0 <= i < |sent| && CubeHolds(a, sent[i]) {
      assert CubeHolds(a, sent[last]);
    }
  }

  /** Together: the union of the cubes is exactly the projection of the models, and no assignment is in two cubes. */
  lemma ExactEnumeration(vc: nat, formula: seq<seq<int>>, vars: seq<nat>, sent: seq<seq<int>>, a: Assignment)
    requires SentOk(vc, formula, vars, sent) && Covers(formula, vars, sent)
    ensures Projects(formula, vars, a) <==> exists i :: 0 <= i < |sent| && CubeHolds(a, sent[i])
    ensures forall i, j :: 0 <= i < j < |sent| ==> !(CubeHolds(a, sent[i]) && CubeHolds(a, sent[j]))
  {
    forall i, j | 0 <= i < j < |sent| ensures !(CubeHolds(a, sent[i]) && CubeHolds(a, sent[j])) {
      assert Contradictory(sent[i], sent[j]);
      var k :| 0 <= k < |sent[i]| && -sent[i][k] in sent[j];
      assert LitOk(vc, sent[i][k]);
    }
  }

  // ---------------------------------------------------------------- counting

  /** The cubes compatible with literal l, without l. */
  function Restrict(cubes: seq<seq<int>>, l: int): seq<seq<int>> {
    if cubes == [] then []
    else
      var rest := Restrict(cubes[..|cubes| - 1], l);
      var c := cubes[|cubes| - 1];
      if -l in c then rest else rest + [Without(c, l)]
  }

  function Without(c: seq<int>, l: int): seq<int> {
    if c == [] then []
    else
      var rest := Without(c[..|c| - 1], l);
      if c[|c| - 1] == l then rest else rest + [c[|c| - 1]]
  }

  lemma {:induction false} WithoutMembers(c: seq<int>, l: int)
    ensures forall x :: x in Without(c, l) <==> x in c && x != l
  {
    if c != [] {
      assert c == c[..|c| - 1] + [c[|c| - 1]];
      WithoutMembers(c[..|c| - 1], l);
    }
  }

  /** Every cube of the restriction comes from a compatible cube. */
  lemma {:induction false} RestrictMembers(cubes: seq<seq<int>>, l: int)
    ensures forall c :: c in Restrict(cubes, l) ==> exists i :: 0 <= i < |cubes| && -l !in cubes[i] && c == Without(cubes[i], l)
  {
    if cubes != [] {
      var n := |cubes| - 1;
      RestrictMembers(cubes[..n], l);
      forall c | c in Restrict(cubes, l) ensures exists i :: 0 <= i < |cubes| && -l !in cubes[i] && c == Without(cubes[i], l) {
        if c in Restrict(cubes[..n], l) {
          var i :| 0 <= i < n && -l !in cubes[..n][i] && c == Without(cubes[..n][i], l);
          assert cubes[i] == cubes[..n][i];
        } else {
          assert c == Without(cubes[n], l) && -l !in cubes[n];
        }
      }
    }
  }

  /** Contradictions of compatible cubes are on other variables. */
  lemma {:induction false} RestrictContradictory(cubes: seq<seq<int>>, l: int)
    requires PairwiseContradictory(cubes)
    ensures PairwiseContradictory(Restrict(cubes, l))
  {
    if cubes != [] {
      var n := |cubes| - 1;
      var front := cubes[..n];
      RestrictContradictory(front, l);
      if -l !in cubes[n] {
        RestrictMembers(front, l);
        var rest, last := Restrict(front, l), Without(cubes[n], l);
        forall j | 0 <= j < |rest| ensures Contradictory(rest[j], last) {
          assert rest[j] in rest;
          var i :| 0 <= i < |front| && -l !in front[i] && rest[j] == Without(front[i], l);
          assert Contradictory(cubes[i], cubes[n]);
          WithoutContradicts(cubes[i], cubes[n], l);
        }
        hide Contradictory;
        assert Restrict(cubes, l) == rest + [last];
      }
    }
  }

  lemma WithoutContradicts(c: seq<int>, d: seq<int>, l: int)
    requires Contradictory(c, d) && -l !in c && -l !in d
    ensures Contradictory(Without(c, l), Without(d, l))
  {
    WithoutMembers(c, l);
    WithoutMembers(d, l);
    var k :| 0 <= k < |c| && -c[k] in d;
    assert c[k] in Without(c, l) && -c[k] in Without(d, l);
  }

  /** A cube without both v and -v is compatible with both. */
  lemma {:induction false} RestrictCounts(cubes: seq<seq<int>>, v: int)
    requires forall i :: 0 <= i < |cubes| ==> !(v in cubes[i] && -v in cubes[i])
    ensures |cubes| <= |Restrict(cubes, v)| + |Restrict(cubes, -v)|
  {
    if cubes != [] {
      RestrictCounts(cubes[..|cubes| - 1], v);
    }
  }

  /** Pairwise contradictory cubes over n variables are at most 2^n. */
  lemma {:induction false} CubesBounded(vars: seq<nat>, cubes: seq<seq<int>>)
    requires forall i, k :: 0 <= i < |cubes| && 0 <= k < |cubes[i]| ==> VarOf(cubes[i][k]) in vars
    requires forall i :: 0 <= i < |cubes| ==> forall x :: x in cubes[i] ==> -x !in cubes[i]
    requires PairwiseContradictory(cubes)
    ensures |cubes| <= Pow2(|vars|)
    decreases |vars|
  {
    if vars == [] {
      assert forall i :: 0 <= i < |cubes| ==> |cubes[i]| == 0 by {
        assert forall i :: 0 <= i < |cubes| && 0 < |cubes[i]| ==> VarOf(cubes[i][0]) in vars;
      }
      assert |cubes| >= 2 ==> Contradictory(cubes[0], cubes[1]);
    } else {
      var v: int := vars[|vars| - 1];
      RestrictCounts(cubes, v);
      BoundedHalf(vars, cubes, v, v);
      BoundedHalf(vars, cubes, v, -v);
    }
  }

  lemma {:induction false} BoundedHalf(vars: seq<nat>, cubes: seq<seq<int>>, v: int, l: int)
    requires vars != [] && v == vars[|vars| - 1] && (l == v || l == -v)
    requires forall i, k :: 0 <= i < |cubes| && 0 <= k < |cubes[i]| ==> VarOf(cubes[i][k]) in vars
    requires forall i :: 0 <= i < |cubes| ==> forall x :: x in cubes[i] ==> -x !in cubes[i]
    requires PairwiseContradictory(cubes)
    ensures |Restrict(cubes, l)| <= Pow2(|vars| - 1)
    decreases |vars|, 0
  {
    var half, front := Restrict(cubes, l), vars[..|vars| - 1];
    RestrictContradictory(cubes, l);
    RestrictMembers(cubes, l);
    forall i | 0 <= i < |half|
      ensures (forall x :: x in half[i] ==> -x !in half[i]) && forall k :: 0 <= k < |half[i]| ==> VarOf(half[i][k]) in front
    {
      var c := half[i];
      assert c in half;
      var j :| 0 <= j < |cubes| && -l !in cubes[j] && c == Without(cubes[j], l);
      WithoutMembers(cubes[j], l);
      HalfVars(vars, cubes[j], l, c);
    }
    CubesBounded(front, half);
  }

  lemma HalfVars(vars: seq<nat>, c: seq<int>, l: int, d: seq<int>)
    requires vars != [] && VarOf(l) == vars[|vars| - 1] && -l !in c
    requires forall k :: 0 <= k < |c| ==> VarOf(c[k]) in vars
    requires forall x :: x in d ==> x in c && x != l
    ensures forall k :: 0 <= k < |d| ==> VarOf(d[k]) in vars[..|vars| - 1]
  {
    var front := vars[..|vars| - 1];
    assert vars == front + [vars[|vars| - 1]];
    forall k | 0 <= k < |d| ensures VarOf(d[k]) in front {
      assert d[k] in d;
      var j :| 0 <= j < |c| && c[j] == d[k];
    }
  }

  /** The number of solutions sent is bounded by the assignments to the interface. */
  lemma SentBounded(vc: nat, formula: seq<seq<int>>, vars: seq<nat>, sent: seq<seq<int>>)
    requires SentOk(vc, formula, vars, sent)
    ensures |sent| <= Pow2(|vars|)
  {
    forall i | 0 <= i < |sent| ensures forall x :: x in sent[i] ==> -x !in sent[i] {
      forall x | x in sent[i] ensures -x !in sent[i] {
        var j :| 0 <= j < |sent[i]| && sent[i][j] == x;
        assert CubeShape(vc, vars, sent[i]);
      }
    }
    CubesBounded(vars, sent);
  }

  // ------------------------------------------------------------------ worker

  class Worker {
    const vars: seq<nat>
    const solver: SatSolver
    ghost const formula: seq<seq<int>>
    ghost var sent: seq<seq<int>>

    /** Loads a node's formula; vars lists the interface variables in increasing order. */
    constructor (vc: nat, formula: seq<seq<int>>, vars: seq<nat>)
      requires forall c :: c in formula ==> ClauseShape(vc, c)
      requires NoDuplicates(vars) && forall i :: 0 <= i < |vars| ==> vars[i] >= 1
      ensures Enumerating() && sent == [] && this.formula == formula && this.vars == vars && solver.vc == vc && fresh(solver)
    {
      hide SatSolver.FirstLevel;
      hide SatSolver.Valid;
      hide UnitRefuted;
      hide Settled;
      hide Listed;
      this.vars := vars;
      this.solver := new SatSolver(vc, formula);
      this.formula := formula;
      this.sent := [];
      new;
      assert Blocks([]) == [] && formula + [] == formula;
    }

    /** Between two rounds of work. */
    ghost predicate Enumerating()
      reads this, solver
    {
      && solver.Valid() && solver.base == formula + Blocks(sent) && SentOk(solver.vc, formula, vars, sent)
      && NoDuplicates(vars) && forall i :: 0 <= i < |vars| ==> vars[i] >= 1
    }

    /** load_into_message for the interface variables. */
    method LoadIntoMessage() returns (cube: seq<int>)
      requires |solver.value| == solver.vc + 1 && forall i :: 0 <= i < |vars| ==> vars[i] >= 1
      requires InRange(solver.value)
      ensures cube == Projection(solver.value, solver.vc, vars)
    {
      cube := [];
      for i := 0 to |vars|
        invariant cube == Projection(solver.value, solver.vc, vars[..i])
      {
        var v: int := vars[i];
        assert vars[..i + 1][..i] == vars[..i];
        if v <= solver.vc {
          if solver.value[v] == 1 {
            cube := cube + [v];
          } else if solver.value[v] == -1 {
            cube := cube + [-v];
          }
        }
      }
      assert vars[..|vars|] == vars;
    }

    /** reset_solver_for_next_solution: false when there is nothing more to find. */
    method ResetForNext(cube: seq<int>) returns (more: bool)
      requires solver.Rested() && !solver.unitContradiction && ClauseShape(solver.vc, Negated(cube))
      modifies solver
      ensures !more && cube == [] ==> solver.base == old(solver.base)
      ensures cube != [] ==> solver.base == old(solver.base) + [Negated(cube)]
      ensures (more ==> cube != [] && solver.Valid()) && solver.decisions == old(solver.decisions)
      ensures !more && cube != [] ==> !Satisfiable(solver.base)
    {
      hide SatSolver.Rested;
      hide SatSolver.Valid;
      hide Evolves;
      hide LoadedHeld;
      hide ClauseShape;
      hide Archive;
      hide Link;
      hide OrderOk;
      hide SkipOk;
      hide AllClear;
      hide RootsHeld;
      hide Satisfiable;
      hide Inv;
      var conflicts := [];
      for i := 0 to |cube|
        invariant conflicts == Negated(cube)[..i]
      {
        conflicts := conflicts + [-cube[i]];
      }
      assert conflicts == Negated(cube);
      if |conflicts| == 0 {
        return false;
      }
      solver.AddConflictClause(conflicts);
      more := solver.Reset();
    }

    /** Sends the solution found and prepares for the next; false when the enumeration is over. */
    method SendSolution() returns (more: bool)
      requires solver.Rested() && !solver.unitContradiction && InRange(solver.value) && Implicant(solver.value, solver.base)
      requires solver.base == formula + Blocks(sent) && SentOk(solver.vc, formula, vars, sent)
      requires NoDuplicates(vars) && forall i :: 0 <= i < |vars| ==> vars[i] >= 1
      modifies this, solver
      ensures |sent| == |old(sent)| + 1 && old(sent) <= sent && SentOk(solver.vc, formula, vars, sent)
      ensures sent[|sent| - 1] == Projection(old(solver.value), solver.vc, vars)
      ensures if more then Enumerating() else Covers(formula, vars, sent)
      ensures solver.decisions == old(solver.decisions)
    {
      hide SentOk;
      hide Implicant;
      hide Covers;
      hide Archive;
      hide Link;
      hide OrderOk;
      hide AllClear;
      hide Blocks;
      hide Satisfiable;
      hide Inv;
      var cube := LoadIntoMessage();
      SentMore(solver.vc, formula, vars, sent, solver.value);
      BlocksMore(sent, cube);
      ghost var sent0 := sent;
      sent := sent + [cube];
      SentShape(solver.vc, formula, vars, sent);
      NegatedShape(solver.vc, vars, cube);
      more := ResetForNext(cube);
      assert (formula + Blocks(sent0)) + [Negated(cube)] == formula + (Blocks(sent0) + [Negated(cube)]);
      if !more {
        if cube == [] {
          EmptyCovers(formula, vars, sent);
        } else {
          ExhaustedCovers(solver.vc, formula, vars, sent);
        }
      }
    }

    /** One result: a call of run, and if it has found a solution, the sending of it. goesOn says whether there may be more. */
    method Generate(reportingTime: nat) returns (result: RunResult, goesOn: bool)
      requires Enumerating() && reportingTime >= 1
      modifies this, solver
      ensures old(sent) <= sent && SentOk(solver.vc, formula, vars, sent) && |sent| <= Pow2(|vars|)
      ensures |sent| == |old(sent)| + if result == Sat then 1 else 0
      ensures result == Paused || (result == Sat && goesOn) ==> Enumerating()
      ensures result == Unsat || (result == Sat && !goesOn) ==> Covers(formula, vars, sent)
      ensures solver.decisions >= old(solver.decisions)
      ensures result == Paused ==> solver.decisions == old(solver.decisions) + reportingTime - 1
    {
      hide SentOk;
      hide Covers;
      hide Implicant;
      hide InRange;
      hide Blocks;
      hide Pow2;
      hide Satisfiable;
      hide LostPair;
      hide Outcome;
      hide Origin;
      hide Evolves;
      hide Inv;
      hide Archive;
      hide Link;
      hide RootsHeld;
      hide OrderOk;
      hide SkipOk;
      hide AllClear;
      hide SatSolver.Minimal;
      goesOn := true;
      SentBounded(solver.vc, formula, vars, sent);
      result := solver.Run(reportingTime);
      if result == Unsat {
        ExhaustedCovers(solver.vc, formula, vars, sent);
      } else if result == Sat {
        goesOn := SendSolution();
        SentBounded(solver.vc, formula, vars, sent);
      }
    }

    /** One round of work: from an assignment or a poll reply to the closing request or poll. interrupt is the number of
        solutions after which the master is asked, single the mode that wants one solution only. */
    method Round(reportingTime: nat, interrupt: int, single: bool) returns (tag: Tag, ghost results: seq<RunResult>,
                 ghost more: bool)
      requires Enumerating() && reportingTime >= 1
      modifies this, solver
      ensures old(sent) <= sent && SentOk(solver.vc, formula, vars, sent) && |sent| <= Pow2(|vars|)
      ensures tag == Poll ==> Enumerating()
      ensures tag == Request ==> Covers(formula, vars, sent) || (single && |sent| == |old(sent)| + 1)
      ensures tag == Poll ==> |sent| - |old(sent)| >= interrupt || solver.decisions >= old(solver.decisions) + reportingTime - 1
      ensures RoundTag(results, more, |sent| - |old(sent)|, interrupt, single, tag)
      ensures results[|results| - 1] == Sat && !more ==> Covers(formula, vars, sent)
      ensures single ==> |sent| <= |old(sent)| + 1 && (|sent| > |old(sent)| ==> tag == Request)
      ensures |sent| - |old(sent)| <= if interrupt >= 1 then interrupt else 1
    {
      hide SentOk;
      hide Covers;
      hide Pow2;
      hide Enumerating;
      hide RoundTag;
      var solutionCount := 0;
      results, more := [], true;
      while true
        invariant Enumerating() && old(sent) <= sent && solutionCount == |sent| - |old(sent)|
        invariant SoFar(results, solutionCount, interrupt, single) && solver.decisions >= old(solver.decisions)
        decreases Pow2(|vars|) - |sent|
      {
        SentCount();
        var result, goesOn := Generate(reportingTime);
        ghost var before := results;
        results, more := results + [result], goesOn;
        match result {
          case Unsat =>
            tag := Request;
          case Paused =>
            tag := Poll;
          case Inconsistent =>
            tag := Failure;
          case Sat =>
            solutionCount := solutionCount + 1;
            if !goesOn || single {
              tag := Request;
            } else if solutionCount >= interrupt {
              tag := Poll;
            } else {
              SoFarMore(before, solutionCount - 1, interrupt, single);
              continue;
            }
        }
        Tagged(before, result, goesOn, solutionCount, interrupt, single, tag);
        return;
      }
    }

    lemma SentCount()
      requires Enumerating()
      ensures |sent| <= Pow2(|vars|) && SentOk(solver.vc, formula, vars, sent)
    {
      hide SatSolver.Valid;
      SentBounded(solver.vc, formula, vars, sent);
    }
  }

  /** What closes a round is decided by its last result; every result before is a solution after which neither the enumeration was over
      nor the master to be asked. */
  ghost predicate RoundTag(results: seq<RunResult>, more: bool, count: int, interrupt: int, single: bool, tag: Tag) {
    && results != [] && (forall i :: 0 <= i < |results| - 1 ==> results[i] == Sat)
    && count == (if results[|results| - 1] == Sat then |results| else |results| - 1)
    && (|results| > 1 ==> !single && |results| - 1 < interrupt)
    && match results[|results| - 1]
       case Unsat => tag == Request
       case Paused => tag == Poll
       case Inconsistent => tag == Failure
       case Sat => if !more || single then tag == Request else tag == Poll && count >= interrupt
  }

  ghost predicate SoFar(results: seq<RunResult>, count: int, interrupt: int, single: bool) {
    |results| == count && (forall i :: 0 <= i < |results| ==> results[i] == Sat) && (count > 0 ==> !single && count < interrupt)
  }

  lemma SoFarMore(results: seq<RunResult>, count: int, interrupt: int, single: bool)
    requires SoFar(results, count, interrupt, single) && !single && count + 1 < interrupt
    ensures SoFar(results + [Sat], count + 1, interrupt, single)
  {
  }

  lemma Tagged(results: seq<RunResult>, result: RunResult, more: bool, count: int, interrupt: int, single: bool, tag: Tag)
    requires SoFar(results, if result == Sat then count - 1 else count, interrupt, single)
    requires match result
             case Unsat => tag == Request
             case Paused => tag == Poll
             case Inconsistent => tag == Failure
             case Sat => if !more || single then tag == Request else tag == Poll && count >= interrupt
    ensures RoundTag(results + [result], more, count, interrupt, single, tag)
  {
  }
}
