/** When run throws its exception: what calls of the solver end in, over all formulas. The scan of the order loses a variable when a
    pause drops it (dagster/SatSolver.cpp:151-155), or when a stale slot of an implication list promotes it past the scan
    (dagster/CnfManager.cpp:208, 303); the exception takes two lost variables in one clause. */
module Pausing {
  import opened Logic
  import opened Cdcl
  import opened SolverSteps
  import opened UnitPropagation
  import opened Scanning
  import opened Solver

  // ------------------------------------------------- searches that lose little

  /** An implicant is extended to a model. */
  lemma ImplicantModel(value: seq<int>, f: seq<seq<int>>)
    requires Implicant(value, f) && value != [] && value[0] == 0
    ensures Satisfiable(f)
  {
    var a: Assignment := iset v: int | 0 <= v < |value| && value[v] == 1;
    forall c | c in f ensures Satisfies(a, c) {
      var k :| 0 <= k < |c| && Val(value, c[k]) == 1;
      assert c[k] in c && Holds(a, c[k]);
    }
    assert Models(a, f);
  }

  lemma SolvedModel(solver: SatSolver)
    requires solver.Rested() && Implicant(solver.value, solver.base)
    ensures Satisfiable(solver.base)
  {
    hide Implicant;
    hide Satisfiable;
    hide Archive;
    hide Link;
    hide OrderOk;
    hide ScoringOk;
    hide Origin;
    ImplicantModel(solver.value, solver.base);
  }

  /** What a search that never throws returns. */
  ghost predicate Sound(r: RunResult, f: seq<seq<int>>) {
    r != Inconsistent && (r == Unsat ==> !Satisfiable(f)) && (r == Sat ==> Satisfiable(f))
  }

  /** Without clauses of two literals no slot is ever filled, and before a pause nothing is lost: the first call never throws. */
  method FirstSearch(vc: nat, clauses: seq<seq<int>>, reportingTime: nat) returns (r: RunResult)
    requires reportingTime >= 1 && forall c :: c in clauses ==> ClauseShape(vc, c) && |c| != 2
    ensures Sound(r, clauses)
  {
    hide ClauseShape;
    hide Listed;
    hide Satisfiable;
    hide Settled;
    hide UnitRefuted;
    hide SatSolver.FirstLevel;
    hide SatSolver.Valid;
    hide SatSolver.Rested;
    hide SatSolver.Minimal;
    hide Implicant;
    hide Origin;
    hide LostPair;
    hide Outcome;
    var solver := new SatSolver(vc, clauses);
    if !solver.unitContradiction && solver.dLevel != 0 {
      FirstLevelStarts(solver);
    }
    r := solver.Run(reportingTime);
    if r == Sat {
      SolvedModel(solver);
    }
    if r == Inconsistent {
      assert solver.skipped + solver.moved == {};
      NoneLost(solver.cc, solver.store, [], solver.value, solver.ordered);
    }
  }

  lemma FirstLevelStarts(solver: SatSolver)
    requires solver.FirstLevel()
    ensures solver.skipped == {} && solver.moved == {} && solver.nextClause == -1 && solver.nextVar == 0 && solver.dLevel == 1
  {
    hide AllOrdered;
    hide SortedByScore;
    hide Tallied;
  }

  /** One pause is harmless as well, if no clause has opposite literals: propagation is complete, and a single variable left behind is
      never needed. */
  method OnePause(vc: nat, clauses: seq<seq<int>>, time: nat, time': nat) returns (first: RunResult, second: RunResult)
    requires time >= 1 && time' >= 1 && forall c :: c in clauses ==> ClauseShape(vc, c) && |c| != 2 && Plain(c)
    ensures Sound(first, clauses) && Sound(second, clauses) && (first != Paused ==> second == first)
  {
    hide ClauseShape;
    hide Listed;
    hide Satisfiable;
    hide Settled;
    hide UnitRefuted;
    hide SatSolver.FirstLevel;
    hide SatSolver.Valid;
    hide Origin;
    hide LostPair;
    hide Outcome;
    hide Plain;
    var solver := new SatSolver(vc, clauses);
    if !solver.unitContradiction && solver.dLevel != 0 {
      FirstLevelStarts(solver);
    }
    first := HarmlessRun(solver, time);
    second := first;
    if first == Paused {
      second := HarmlessRun(solver, time');
    }
  }

  method HarmlessRun(solver: SatSolver, reportingTime: nat) returns (r: RunResult)
    requires solver.Valid() && reportingTime >= 1
    requires !solver.unitContradiction && solver.dLevel != 0 ==> !Listed(solver.imp) && |solver.skipped| <= 1
    requires solver.solutionIndices == [] && forall c :: c in solver.formula ==> Plain(c)
    modifies solver
    ensures Sound(r, solver.base)
    ensures r == Paused ==> solver.Valid() && !Listed(solver.imp) && |solver.skipped| <= |old(solver.skipped)| + 1
    ensures old(solver.unitContradiction || solver.dLevel == 0) ==> r == Unsat
    ensures solver.base == old(solver.base) && solver.solutionIndices == []
  {
    hide Listed;
    hide Satisfiable;
    hide SatSolver.Valid;
    hide Origin;
    hide LostPair;
    hide Outcome;
    hide Plain;
    hide SatSolver.Rested;
    hide SatSolver.Minimal;
    hide Implicant;
    r := solver.Run(reportingTime);
    if r == Sat {
      SolvedModel(solver);
    } else if r == Inconsistent {
      assert solver.skipped + solver.moved == solver.skipped;
      OneLost(solver.formula, solver.cc, solver.store, [], solver.value, solver.ordered, solver.loaded, solver.skipped);
    }
  }

  /** A search after a reset has lost nothing either, blocking clauses included, as long as the order has their variables. */
  method SearchAfterReset(solver: SatSolver, reportingTime: nat) returns (r: RunResult)
    requires solver.Rested() && !solver.unitContradiction && reportingTime >= 1 && !Listed(solver.imp)
    requires forall id :: id in solver.solutionIndices && id < |solver.store| ==>
      forall x :: x in solver.store[id] ==> VarOf(x) in solver.ordered
    requires forall id :: id in solver.solutionIndices ==> id < |solver.store|
    modifies solver
    ensures Sound(r, solver.base) && solver.base == old(solver.base)
  {
    hide Listed;
    hide Satisfiable;
    hide SatSolver.Valid;
    hide SatSolver.Rested;
    hide Origin;
    hide LostPair;
    hide Outcome;
    hide LoadedHeld;
    hide SatSolver.Minimal;
    hide Implicant;
    ghost var store0 := solver.store;
    var ok := solver.Reset();
    if !ok {
      return Unsat;
    }
    if solver.dLevel == 0 {
      r := solver.Run(reportingTime);
      return;
    }
    r := solver.Run(reportingTime);
    EvolvesTransitive(solver.cc, store0, store0, solver.store);
    if r == Sat {
      SolvedModel(solver);
    } else if r == Inconsistent {
      assert solver.skipped + solver.moved == {};
      forall id, x | id in solver.solutionIndices && id < |solver.store| && x in solver.store[id] ensures VarOf(x) in solver.ordered {
        assert Same(store0[id], solver.store[id]);
      }
      NoneLost(solver.cc, solver.store, solver.solutionIndices, solver.value, solver.ordered);
    }
  }

  // --------------------------------------------- pausing at every selection

  /** An unsatisfied clause at the end of the calls is one unit propagation does not satisfy. */
  lemma EndThrows(formula: seq<seq<int>>, cc: nat, store: seq<seq<int>>, value: seq<int>, trail: seq<int>,
                  ordered: set<nat>, loaded: set<int>,
                  lost: set<nat>)
    requires LostPair(cc, store, [], value, ordered, lost) && Origin(formula, cc, store, ordered, loaded) && Settled(formula, trail)
    requires forall i :: 0 <= i < |trail| ==> Val(value, trail[i]) == 1
    ensures !UnitSatisfied(formula)
  {
    hide UnitRefuted;
    var id: nat, i: nat, j: nat :| OpenPairAt(cc, store, [], value, id, i, j);
    var c := formula[id];
    assert c in formula && Same(c, store[id]);
    TrueMember(value, trail, store[id]);
    hide Forced;
    hide SomeTrue;
  }

  lemma TrueMember(value: seq<int>, trail: seq<int>, c: seq<int>)
    requires forall i :: 0 <= i < |trail| ==> Val(value, trail[i]) == 1
    ensures (exists l :: l in trail && l in c) ==> SomeTrue(value, c)
  {
    if l :| l in trail && l in c {
      var k :| 0 <= k < |c| && c[k] == l;
      var i :| 0 <= i < |trail| && trail[i] == l;
      assert Val(value, c[k]) == 1;
    }
  }

  lemma EndSatisfied(vc: nat, formula: seq<seq<int>>, value: seq<int>, value': seq<int>, trail: seq<int>)
    requires Implicant(value', formula) && Freed(value, value') && Settled(formula, trail)
    requires (forall x :: LitOk(vc, x) && Val(value, x) == 1 ==> x in trail) && forall c :: c in formula ==> ClauseShape(vc, c)
    ensures UnitSatisfied(formula)
  {
    hide UnitRefuted;
    hide Forced;
    forall c | c in formula ensures exists l :: l in c && Forced(formula, l) {
      assert SomeTrue(value', c) && ClauseShape(vc, c);
      var k :| 0 <= k < |c| && Val(value', c[k]) == 1;
      assert c[k] in c && Val(value, c[k]) == 1;
    }
  }

  /** With a reporting time of 1 the calls never decide anything. They end in Unsat exactly if unit propagation refutes the formula,
      in Sat exactly if it satisfies every clause, and in the exception on all other formulas, satisfiable or not. */
  method PauseUntilEnd(vc: nat, clauses: seq<seq<int>>) returns (r: RunResult)
    requires forall c :: c in clauses ==> ClauseShape(vc, c)
    ensures r == Unsat <==> UnitRefuted(clauses)
    ensures r == Sat <==> !UnitRefuted(clauses) && UnitSatisfied(clauses)
    ensures r == Inconsistent <==> !UnitRefuted(clauses) && !UnitSatisfied(clauses)
  {
    hide ClauseShape;
    hide Satisfiable;
    hide UnitRefuted;
    hide UnitSatisfied;
    hide Implicant;
    hide Origin;
    hide LostPair;
    hide NextFree;
    hide Freed;
    hide SatSolver.FirstLevel;
    hide SatSolver.Valid;
    hide SatSolver.Rested;
    hide Evolves;
    hide Quiet;
    hide QuietPause;
    hide Settled;
    var solver := new SatSolver(vc, clauses);
    if solver.unitContradiction || solver.dLevel == 0 {
      r := solver.Run(1);
      return;
    }
    FirstLevelStarts(solver);
    ghost var start := solver.Now();
    SettledOnly(solver, clauses);
    ReadyStack(solver);
    r := Paused;
    while r == Paused
      invariant r == Paused ==> solver.Valid() && !solver.unitContradiction && solver.dLevel != 0
      invariant r == Paused ==> solver.Now() == start.(nextVar := solver.nextVar) && solver.nextVar <= |start.varOrder|
      invariant r != Paused ==> r == if UnitSatisfied(clauses) then Sat else Inconsistent
      invariant solver.base == clauses && solver.formula == clauses && solver.solutionIndices == []
      decreases r == Paused, |start.varOrder| - solver.nextVar
    {
      ghost var before := solver.Now();
      r := solver.Run(1);
      assert PausedOnly(r, 1, before, solver.Now());
      if r == Sat {
        EndSatisfied(vc, clauses, start.state.value, solver.value, start.state.trail);
      } else if r == Inconsistent {
        EndThrows(clauses, solver.cc, solver.store, solver.value, start.state.trail, solver.ordered, solver.loaded, solver.skipped + solver.moved);
      }
    }
  }

  lemma SettledOnly(solver: SatSolver, clauses: seq<seq<int>>)
    requires Settled(clauses, solver.trail)
    ensures !UnitRefuted(clauses)
  {
    hide UnitRefuted;
    hide Forced;
  }

  /** The literals of the stack are those that are true. */
  lemma ReadyStack(solver: SatSolver)
    requires solver.FirstLevel()
    ensures solver.nextVar <= |solver.varOrder|
    ensures forall i :: 0 <= i < |solver.trail| ==> Val(solver.value, solver.trail[i]) == 1
    ensures forall x :: LitOk(solver.vc, x) && Val(solver.value, x) == 1 ==> x in solver.trail
  {
    hide AllOrdered;
    hide SortedByScore;
    hide Tallied;
    BusyFacts(solver.base, solver.St(), {}, 0, []);
    hide Inv;
    TrailFacts(solver.vc, solver.value, solver.level, solver.trail, solver.dLevel);
  }

  /** Opposite literals make a single dropped variable matter: this clause is always true, but not for the final check. */
  lemma OppositeLiterals(f: seq<seq<int>>)
    requires f == [[1, -1]]
    ensures !UnitRefuted(f) && !UnitSatisfied(f) && Satisfiable(f)
  {
    assert f[0] in f && 1 in f[0] && -1 in f[0];
    assert Closed(f, iset{}) && !Refutes(f, iset{});
    assert !Forced(f, 1) && !Forced(f, -1);
    OppositeModel(f);
  }

  lemma OppositeModel(f: seq<seq<int>>)
    requires f == [[1, -1]]
    ensures Satisfiable(f)
  {
    var a: Assignment := iset{1};
    assert 1 in f[0] && Holds(a, 1);
    assert Satisfies(a, f[0]);
    assert Models(a, f);
  }

  // ----------------------------------------- two pauses, for every reporting time

  function Extended(f: seq<seq<int>>, l: int): seq<seq<int>> {
    seq(|f|, i requires 0 <= i < |f| => f[i] + [l])
  }

  /** All clauses over the variables 1 to n with one literal of each, the number of negative ones being odd or even. */
  function Signs(n: nat, odd: bool): seq<seq<int>> {
    if n == 0 then if odd then [] else [[]]
    else Extended(Signs(n - 1, odd), n) + Extended(Signs(n - 1, !odd), 0 - n)
  }

  ghost predicate Word(n: nat, c: seq<int>) {
    |c| == n && forall i :: 0 <= i < n ==> VarOf(c[i]) == i + 1
  }

  ghost predicate OddWord(c: seq<int>)
    decreases |c|
  {
    c != [] && OddWord(c[..|c| - 1]) != (c[|c| - 1] < 0)
  }

  lemma SignsStep(n: nat, odd: bool, c: seq<int>)
    requires n >= 1
    ensures c in Signs(n, odd) <==>
      c != [] && var d := c[..|c| - 1]; (c[|c| - 1] == n && d in Signs(n - 1, odd)) || (c[|c| - 1] == 0 - n && d in Signs(n - 1, !odd))
  {
    var f, g := Signs(n - 1, odd), Signs(n - 1, !odd);
    ExtendedHas(f, n, c);
    ExtendedHas(g, 0 - n, c);
    hide Extended;
  }

  lemma WordStep(n: nat, c: seq<int>)
    requires n >= 1 && c != []
    ensures Word(n, c) <==> VarOf(c[|c| - 1]) == n && Word(n - 1, c[..|c| - 1])
  {
    if |c| == n && VarOf(c[n - 1]) == n && Word(n - 1, c[..n - 1]) {
      WordGrows(n, c);
    }
  }

  /** The formula holds exactly the words with that parity. */
  lemma {:induction false} SignsWords(n: nat, odd: bool, c: seq<int>)
    ensures c in Signs(n, odd) <==> Word(n, c) && OddWord(c) == odd
  {
    if n > 0 {
      SignsStep(n, odd, c);
      if c != [] {
        WordStep(n, c);
        SignsWords(n - 1, odd, c[..|c| - 1]);
        SignsWords(n - 1, !odd, c[..|c| - 1]);
        hide Signs;
        hide Word;
      }
    }
  }

  lemma WordGrows(n: nat, c: seq<int>)
    requires n >= 1 && |c| == n && VarOf(c[n - 1]) == n && Word(n - 1, c[..n - 1])
    ensures Word(n, c)
  {
    forall i | 0 <= i < n ensures VarOf(c[i]) == i + 1 {
      assert i < n - 1 ==> c[..n - 1][i] == c[i];
    }
  }

  lemma ExtendedHas(f: seq<seq<int>>, l: int, c: seq<int>)
    ensures c in Extended(f, l) <==> c != [] && c[|c| - 1] == l && c[..|c| - 1] in f
  {
    if c in Extended(f, l) {
      var i :| 0 <= i < |f| && f[i] + [l] == c;
      assert c[..|c| - 1] == f[i];
    }
    if c != [] && c[|c| - 1] == l && c[..|c| - 1] in f {
      var i :| 0 <= i < |f| && f[i] == c[..|c| - 1];
      assert Extended(f, l)[i] == c[..|c| - 1] + [c[|c| - 1]] == c;
    }
  }

  /** Negating one literal changes the parity. */
  lemma {:induction false} Flipped(n: nat, c: seq<int>, i: nat)
    requires Word(n, c) && i < n
    ensures Word(n, c[i := -c[i]]) && OddWord(c[i := -c[i]]) == !OddWord(c)
    decreases n
  {
    var d := c[i := -c[i]];
    assert VarOf(c[i]) == i + 1;
    if i < n - 1 {
      assert d[..n - 1] == c[..n - 1][i := -c[i]];
      Flipped(n - 1, c[..n - 1], i);
    } else {
      assert d[..n - 1] == c[..n - 1];
    }
  }

  lemma WordShape(n: nat, c: seq<int>)
    requires Word(n, c)
    ensures ClauseShape(n, c)
  {
    assert forall i, j :: 0 <= i < j < n ==> c[i] != c[j];
  }

  /** The even words are satisfiable: a word false when only variable 1 is true has one negative literal. */
  lemma SignsSatisfiable(n: nat)
    requires n >= 1
    ensures Satisfiable(Signs(n, false))
  {
    var a: Assignment := iset{1};
    forall c | c in Signs(n, false) ensures Satisfies(a, c) {
      SignsWords(n, false, c);
      if forall i :: 0 <= i < n ==> !Holds(a, c[i]) {
        assert VarOf(c[0]) == 1 && c[0] == -1;
        assert forall i :: 1 <= i < n ==> VarOf(c[i]) == i + 1 && c[i] == i + 1;
        OneNegative(n, c);
      } else {
        var i :| 0 <= i < n && Holds(a, c[i]);
        assert c[i] in c;
      }
    }
    assert Models(a, Signs(n, false));
  }

  lemma {:induction false} OneNegative(n: nat, c: seq<int>)
    requires n >= 1 && |c| == n && c[0] == -1 && forall i :: 1 <= i < n ==> c[i] == i + 1
    ensures OddWord(c)
    decreases n
  {
    if n > 1 {
      OneNegative(n - 1, c[..n - 1]);
    } else {
      assert c[..0] == [];
    }
  }

  /** As long as a variable is free, some even word has no true literal. */
  lemma UnsatisfiedWord(n: nat, value: seq<int>, u: nat) returns (c: seq<int>)
    requires |value| == n + 1 && 1 <= u <= n && value[u] == 0
    ensures c in Signs(n, false) && !SomeTrue(value, c)
  {
    var d: seq<int> := seq(n, i requires 0 <= i < n => if value[i + 1] == 1 then -(i + 1) else i + 1);
    assert Word(n, d) && !SomeTrue(value, d);
    c := d;
    if OddWord(d) {
      c := d[u - 1 := -d[u - 1]];
      Flipped(n, d, u - 1);
      assert d[u - 1] == u;
      assert !SomeTrue(value, c);
    }
    SignsWords(n, false, c);
  }

  /** A stack shorter than the number of variables leaves one free. */
  lemma SomeFree(n: nat, value: seq<int>, trail: seq<int>) returns (u: nat)
    requires |value| == n + 1 && |trail| < n && (forall x :: LitOk(n, x) && Val(value, x) == 1 ==> x in trail)
    requires forall x :: -1 <= Val(value, x) <= 1
    ensures 1 <= u <= n && value[u] == 0
  {
    if forall v :: 1 <= v <= n ==> value[v] != 0 {
      var c: seq<int> := seq(n, i requires 0 <= i < n => if value[i + 1] == 1 then -(i + 1) else i + 1);
      forall i | 0 <= i < n ensures -c[i] in trail {
        assert -1 <= Val(value, i + 1) <= 1;
        assert LitOk(n, -c[i]) && Val(value, -c[i]) == 1;
      }
      forall x | x in c ensures -x in trail {
        var i :| 0 <= i < n && c[i] == x;
      }
      RefutedBound(c, {}, trail);
    }
    u :| 1 <= u <= n && value[u] == 0;
  }

  /** An order with all variables from 1 to n has length n. */
  lemma FullOrder(n: nat, varOrder: seq<nat>)
    requires NoDuplicates(varOrder) && forall v :: v in varOrder <==> 1 <= v <= n
    ensures |varOrder| == n
  {
    assert forall i :: 0 <= i < |varOrder| ==> varOrder[i] in varOrder;
    DistinctVars(n, varOrder);
    var c: seq<int> := seq(n, i requires 0 <= i < n => -(i + 1));
    forall x | x in c ensures -x in varOrder {
      var i :| 0 <= i < n && c[i] == x;
    }
    RefutedBound(c, {}, varOrder);
  }

  ghost predicate Long(store: seq<seq<int>>, n: nat) {
    forall id :: 0 <= id < |store| ==> |store[id]| == n
  }

  lemma LongKept(cc: nat, store: seq<seq<int>>, store': seq<seq<int>>, n: nat)
    requires Long(store, n) && Evolves(cc, store, store') && |store| == |store'|
    ensures Long(store', n)
  {
    hide Same;
  }

  lemma LongCopies(formula: seq<seq<int>>, cc: nat, store: seq<seq<int>>, n: nat)
    requires Copied(formula, cc, store) && |store| == cc && Long(formula, n)
    ensures Long(store, n)
  {
    hide Same;
  }

  lemma QuietIntro(base: seq<seq<int>>, a: Scan, n: nat, len: nat)
    requires Inv(base, a.state, {}, -1, 0, []) && !Listed(a.state.imp) && Long(a.state.store, len) && |a.state.trail| + n + 1 <= len
    requires a.nextClause == -1 && a.nextVar + n <= |a.varOrder|
    requires forall i :: a.nextVar <= i < |a.varOrder| ==> Val(a.state.value, a.varOrder[i]) == 0
    ensures Quiet(a, n)
  {
    hide Listed;
    BusyFacts(base, a.state, {}, 0, []);
    hide Inv;
    forall id | 0 <= id < |a.state.store| ensures NoDuplicates(a.state.store[id]) {
      assert ClauseShape(a.state.vc, a.state.store[id]);
    }
  }

  lemma SignsShape(n: nat)
    ensures forall c :: c in Signs(n, false) ==> ClauseShape(n, c) && |c| == n
    ensures Long(Signs(n, false), n)
  {
    forall c | c in Signs(n, false) ensures ClauseShape(n, c) && |c| == n {
      SignsWords(n, false, c);
      WordShape(n, c);
    }
    hide ClauseShape;
  }

  lemma AllScored(n: nat, value: seq<int>, v: nat)
    requires n >= 2 && 1 <= v <= n && |value| == n + 1 && value[1] == 0
    ensures Scored(Signs(n, false), v)
  {
    hide Signs;
    hide OddWord;
    hide SomeTrue;
    var c := UnsatisfiedWord(n, value, 1);
    SignsWords(n, false, c);
    assert VarOf(c[v - 1]) == v;
    WordScored(Signs(n, false), c, v);
  }

  lemma WordScored(f: seq<seq<int>>, c: seq<int>, v: nat)
    requires c in f && |c| >= 2 && 1 <= v <= |c| && VarOf(c[v - 1]) == v
    ensures Scored(f, v)
  {
    assert c[v - 1] in c;
    var id :| 0 <= id < |f| && f[id] == c;
  }

  /** With nothing assigned the order holds every variable. */
  lemma AllInOrder(n: nat, value: seq<int>, varOrder: seq<nat>, varPosition: seq<nat>, ordered: set<nat>)
    requires n >= 2 && AllOrdered(n, Signs(n, false), value, varOrder) && OrderOk(n, varOrder, varPosition, ordered)
    requires forall v :: 0 <= v <= n ==> value[v] == 0
    ensures |varOrder| == n && forall i :: 0 <= i < n ==> Val(value, varOrder[i]) == 0
  {
    hide Signs;
    hide Scored;
    forall v: nat | 1 <= v <= n ensures Scored(Signs(n, false), v) {
      AllScored(n, value, v);
    }
    FullOrder(n, varOrder);
  }

  lemma NothingSet(base: seq<seq<int>>, s: State)
    requires Inv(base, s, {}, -1, 0, []) && s.trail == []
    ensures |s.value| == s.vc + 1 && forall v :: 0 <= v <= s.vc ==> s.value[v] == 0
  {
    BusyFacts(base, s, {}, 0, []);
    TrailFacts(s.vc, s.value, s.level, s.trail, s.dLevel);
    forall v: int | 0 <= v <= s.vc ensures s.value[v] == 0 {
      if v > 0 {
        assert LitOk(s.vc, v) && LitOk(s.vc, -v);
        assert Val(s.value, v) != 1 && Val(s.value, -v) != 1 && -1 <= Val(s.value, v) <= 1;
      }
    }
  }

  /** The first call will be quiet. */
  lemma StartsQuiet(solver: SatSolver, n: nat)
    requires solver.FirstLevel() && solver.trail == [] && solver.vc == 2 * n && n >= 2 && !Listed(solver.imp)
    requires solver.Valid() && !solver.unitContradiction && solver.formula == Signs(2 * n, false)
    ensures Quiet(solver.Now(), n) && |solver.varOrder| == 2 * n && Long(solver.store, 2 * n)
  {
    hide Inv;
    hide AllOrdered;
    hide SortedByScore;
    hide Tallied;
    hide OrderOk;
    hide ScoringOk;
    hide Signs;
    hide Long;
    hide Listed;
    hide Copied;
    hide Forced;
    hide Quiet;
    NothingSet(solver.base, solver.St());
    AllInOrder(2 * n, solver.value, solver.varOrder, solver.varPosition, solver.ordered);
    SignsShape(2 * n);
    LongCopies(solver.formula, solver.cc, solver.store, 2 * n);
    QuietIntro(solver.base, solver.Now(), n, 2 * n);
  }

  lemma QuietAgain(base: seq<seq<int>>, cc: nat, a: Scan, b: Scan, n: nat)
    requires QuietPause(a, b, n) && a.state.trail == [] && a.nextVar == 0 && |a.varOrder| == 2 * n && Long(a.state.store, 2 * n)
    requires Inv(base, b.state, {}, -1, 0, []) && Evolves(cc, a.state.store, b.state.store) && !Listed(b.state.imp)
    ensures Quiet(b, n)
  {
    hide Inv;
    hide Listed;
    hide Long;
    hide Evolves;
    LongKept(cc, a.state.store, b.state.store, 2 * n);
    QuietIntro(base, b, n, 2 * n);
  }

  /** With fewer literals set than there are variables the assignment satisfies no check. */
  lemma NotSatisfied(base: seq<seq<int>>, s: State, value': seq<int>, n: nat)
    requires Inv(base, s, {}, -1, 0, []) && s.vc == n && |s.trail| < n && Freed(s.value, value')
    ensures !Implicant(value', Signs(n, false))
  {
    BusyFacts(base, s, {}, 0, []);
    TrailFacts(s.vc, s.value, s.level, s.trail, s.dLevel);
    hide Inv;
    hide TrailOk;
    var u := SomeFree(n, s.value, s.trail);
    var c := UnsatisfiedWord(n, s.value, u);
    assert !SomeTrue(value', c);
  }

  lemma SearchState(solver: SatSolver)
    requires solver.Valid() && !solver.unitContradiction && solver.dLevel != 0
    ensures Inv(solver.base, solver.St(), {}, -1, 0, [])
  {
    hide Inv;
  }

  lemma OutcomeQuiet(r: RunResult, n: nat, a: Scan, b: Scan)
    requires Outcome(r, n, a, b) && Quiet(a, n)
    ensures r == Paused && QuietPause(a, b, n)
  {
  }

  /** Two quiet calls take the scan to the end of the order, but leave two variables unset. */
  method TwoQuietCalls(solver: SatSolver, n: nat) returns (first: RunResult, second: RunResult)
    requires solver.Valid() && !solver.unitContradiction && solver.dLevel != 0 && Quiet(solver.Now(), n) && n >= 2
    requires solver.trail == [] && solver.nextVar == 0 && |solver.varOrder| == 2 * n && Long(solver.store, 2 * n) && !Listed(solver.imp)
    modifies solver
    ensures solver.Valid() && !solver.unitContradiction && solver.dLevel != 0 && solver.base == old(solver.base)
    ensures |solver.trail| == 2 * n - 2 && solver.nextVar == |solver.varOrder| && solver.nextClause == -1
    ensures first == Paused && second == Paused
  {
    hide Listed;
    hide Long;
    hide Quiet;
    hide Evolves;
    hide Inv;
    hide Outcome;
    hide SatSolver.Valid;
    hide LostPair;
    hide Origin;
    ghost var a := solver.Now();
    first := solver.Run(n);
    OutcomeQuiet(first, n, a, solver.Now());
    SearchState(solver);
    QuietAgain(solver.base, solver.cc, a, solver.Now(), n);
    ghost var b := solver.Now();
    second := solver.Run(n);
    OutcomeQuiet(second, n, b, solver.Now());
  }

  /** For every reporting time of at least 2 there is a satisfiable formula on which two pauses always lead to the exception: over
      twice as many variables, all words with an even number of negative literals. Nothing is ever propagated, so each call decides
      one variable less than it selects. */
  method TwoPauses(reportingTime: nat) returns (first: RunResult, second: RunResult, third: RunResult)
    requires reportingTime >= 2
    ensures first == Paused && second == Paused && third == Inconsistent && Satisfiable(Signs(2 * reportingTime, false))
  {
    hide ClauseShape;
    hide Listed;
    hide Settled;
    hide UnitRefuted;
    hide Satisfiable;
    hide SatSolver.FirstLevel;
    hide Origin;
    hide LostPair;
    hide Signs;
    hide Long;
    hide Quiet;
    hide Evolves;
    hide Implicant;
    hide Freed;
    hide SatSolver.Valid;
    hide SatSolver.Rested;
    hide Inv;
    hide Quiet;
    var n := 2 * reportingTime;
    var clauses := Signs(n, false);
    SignsShape(n);
    SignsSatisfiable(n);
    var solver := new SatSolver(n, clauses);
    FirstLevelStarts(solver);
    StartsQuiet(solver, reportingTime);
    first, second := TwoQuietCalls(solver, reportingTime);
    SearchState(solver);
    ghost var s := solver.St();
    third := solver.Run(reportingTime);
    if third == Sat {
      NotSatisfied(clauses, s, solver.value, n);
    }
  }
}
