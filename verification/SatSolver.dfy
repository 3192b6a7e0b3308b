/** The solver class of dagster/CnfManager.{h,cpp} and dagster/SatSolver.cpp over the state described in Cdcl.
    Restarts are arbitrary choices, and so is the order of variables with equal scores; scores, phases and decay are those of the source. */
module Solver {
  import opened Logic
  import opened Cdcl
  import opened SolverSteps
  import opened UnitPropagation
  import opened Scanning
  import opened Resolution
  import opened Trimming

  /** The number of conflicts between two decays of the scores. */
  const HALFLIFE: nat := 128

  class SatSolver {
    const vc: nat
    var cc: nat
    var imp: map<int, seq<int>>
    var slot: map<int, int>
    var store: seq<seq<int>>
    var watch: map<int, seq<nat>>
    var value: seq<int>
    var level: seq<nat>
    var ante: seq<Ante>
    var mark: seq<bool>
    var mark2: seq<bool>
    var trail: seq<int>
    var dLevel: nat
    var aLevel: nat
    var learned: Learned
    var activity: seq<Activity>
    var phase: seq<bool>
    var nConflicts: nat
    var nextDecay: nat
    var varOrder: seq<nat>
    var varPosition: seq<nat>
    var nextVar: nat
    var nextClause: int
    var unitConflicts: seq<int>
    var solutionIndices: seq<nat>
    var unitContradiction: bool
    var decisions: nat
    ghost const formula: seq<seq<int>>
    ghost var base: seq<seq<int>>
    ghost var skipped: set<nat>
    ghost var moved: set<nat>
    ghost var ordered: set<nat>
    ghost var loaded: set<int>

    ghost function St(): State
      reads `cc, `store, `imp, `watch, `value, `level, `ante, `trail, `dLevel
    {
      State(vc, cc, store, imp, watch, value, level, ante, trail, dLevel)
    }

    ghost predicate OrdersOk()
      reads `varOrder, `varPosition, `ordered, `value, `nextVar, `skipped, `moved, `imp, `slot, `activity, `phase
    {
      && OrderOk(vc, varOrder, varPosition, ordered) && SkipOk(value, varOrder, nextVar, skipped + moved)
      && ScoringOk(vc, imp, slot, activity, phase, moved)
    }

    /** The same, except that variable free may be one the next scan does not find. */
    ghost predicate OrdersOkBut(free: nat)
      reads `varOrder, `varPosition, `ordered, `value, `nextVar, `skipped, `moved, `imp, `slot, `activity, `phase
    {
      && OrderOk(vc, varOrder, varPosition, ordered) && SkipOk(value, varOrder, nextVar, skipped + moved + {free})
      && ScoringOk(vc, imp, slot, activity, phase, moved)
    }

    lemma OrdersWider(free: nat)
      requires OrdersOk()
      ensures OrdersOkBut(free)
    {
      hide OrderOk;
      hide ScoringOk;
    }

    lemma OrdersNarrow()
      requires OrdersOkBut(0)
      ensures OrdersOk()
    {
      hide ScoringOk;
    }

    lemma OrdersOpen()
      requires OrdersOk()
      ensures OrderOk(vc, varOrder, varPosition, ordered) && SkipOk(value, varOrder, nextVar, skipped + moved)
      ensures ScoringOk(vc, imp, slot, activity, phase, moved) && |activity| == |phase| == vc + 1
    {
      hide OrderOk;
      hide SkipOk;
    }

    lemma OrdersButOpen(free: nat)
      requires OrdersOkBut(free)
      ensures OrderOk(vc, varOrder, varPosition, ordered) && ScoringOk(vc, imp, slot, activity, phase, moved)
    {
      hide OrderOk;
      hide ScoringOk;
    }

    ghost function Rank(): Ranking
      reads `activity, `varOrder, `varPosition
    {
      Ranking(activity, varOrder, varPosition)
    }

    ghost function Now(): Scan
      reads `cc, `store, `imp, `watch, `value, `level, `ante, `trail, `dLevel, `varOrder, `nextVar, `nextClause
    {
      Scan(St(), varOrder, nextVar, nextClause)
    }

    /** What only a conflict changes. */
    ghost function Books(): (Ranking, set<nat>, map<int, int>, seq<bool>, int, int, int)
      reads `activity, `varOrder, `varPosition, `moved, `slot, `phase, `nextVar, `store, `nConflicts
    {
      (Rank(), moved, slot, phase, nextVar, |store|, nConflicts)
    }

    /** Propagation is under way: the literals of pending and those of the trail from head on are still to be processed. */
    ghost predicate Busy(pending: set<int>, head: nat, litFalse: int, rest: seq<nat>)
      reads `base, `cc, `store, `imp, `watch, `value, `level, `ante, `trail, `dLevel, `mark
      reads `varOrder, `varPosition, `ordered, `nextVar, `skipped, `moved, `slot, `activity, `phase
    {
      head <= |trail| && Inv(base, St(), Todo(pending, trail, head), -1, litFalse, rest) && OrdersOk() && AllClear(vc, mark)
    }

    lemma BusyBound(pending: set<int>, head: nat)
      requires Busy(pending, head, 0, [])
      ensures head <= |trail| <= vc
    {
      hide Inv;
      hide OrdersOk;
      hide AllClear;
      hide TrailOk;
      BusyFacts(base, St(), Todo(pending, trail, head), 0, []);
      TrailBound(vc, value, level, trail, dLevel);
    }

    lemma BusyDone(pending: set<int>)
      requires Busy(pending, |trail|, 0, [])
      ensures Inv(base, St(), pending, -1, 0, []) && OrdersOk() && AllClear(vc, mark)
    {
      hide Inv;
      hide OrdersOk;
      hide AllClear;
      TodoNone(pending, trail, |trail|);
    }

    /** After a conflict: at the root level the base formula is refuted, above it an asserting clause is learned. */
    ghost predicate Conflicted()
      reads `base, `cc, `store, `imp, `watch, `value, `level, `ante, `trail, `dLevel, `mark, `aLevel, `learned
      reads `varOrder, `varPosition, `ordered, `nextVar, `skipped, `moved, `slot, `activity, `phase
    {
      && OrdersOk() && AllClear(vc, mark)
      && (dLevel == 1 ==> aLevel == 0 && !Satisfiable(base) && InvBelow(base, St(), 0, -1))
      && (dLevel >= 2 ==> LearnedOk(base, St(), aLevel, learned))
    }

    // ------------------------------------------------------- variable order

    /** updateScores: counts the literals of c and promotes each variable that has overtaken the one before it. */
    method UpdateScores(c: seq<int>, ghost free: nat)
      requires OrdersOkBut(free) && forall x :: x in c ==> Scorable(vc, imp, value, free, x)
      modifies `activity, `varOrder, `varPosition, `moved
      ensures OrdersOkBut(free) && RescoredBy(old(Rank()), c, Rank())
    {
      hide SkipOk;
      hide OrderOk;
      hide ScoringOk;
      hide RescoredLit;
      ScoringSizes(vc, imp, slot, activity, phase, moved);
      RankedBy(vc, Rank(), ordered);
      assert forall k :: 0 <= k < |c| ==> c[k] in c;
      ghost var rank := Rank();
      for k := 0 to |c|
        invariant OrdersOkBut(free) && Rank() == Rescored(rank, c[..k])
      {
        assert c[..k + 1][..k] == c[..k];
        UpdateScore(c[k], free);
      }
      assert c[..|c|] == c;
    }

    method UpdateScore(l: int, ghost free: nat)
      requires OrdersOkBut(free) && Scorable(vc, imp, value, free, l) && RankShape(Rank()) && VarOf(l) < |activity|
      modifies `activity, `varOrder, `varPosition, `moved
      ensures OrdersOkBut(free) && Rank() == RescoredLit(old(Rank()), l)
    {
      hide SkipOk;
      hide PlaceFor;
      hide Scorable;
      ScoringSizes(vc, imp, slot, activity, phase, moved);
      hide ScoringOk;
      ghost var activity0 := activity;
      var v := VarOf(l);
      activity := Bumped(activity, l);
      ScoringKept(vc, imp, slot, activity0, phase, moved, activity, phase, moved);
      var it := varPosition[v];
      if it != 0 && ScoreOf(activity, v) > ScoreOf(activity, varOrder[it - 1]) {
        var q := FindPlace(ScoreOf(activity, v), it);
        Promote(it, q, l, free);
      }
    }

    /** The search of a promotion: strides of 0x400 to the left, and then halved steps. */
    method FindPlace(score: nat, it: nat) returns (q: nat)
      requires it < |varOrder|
      ensures q == PlaceFor(activity, varOrder, score, it)
    {
      hide Refine;
      var step: nat := 0x400;
      var p := it - step;
      while p >= 0 && ScoreOf(activity, varOrder[p]) < score
        invariant -0x400 <= p <= it - 0x400 && Stride(activity, varOrder, score, p) == Stride(activity, varOrder, score, it - 0x400)
      {
        p := p - step;
      }
      q := RefinePlace(score, p + step, step / 2);
    }

    method RefinePlace(score: nat, q: nat, step: nat) returns (r: nat)
      requires q < |varOrder|
      ensures r == Refine(activity, varOrder, score, q, step)
    {
      hide ScoreOf;
      var k := step;
      r := q;
      while k > 0
        invariant r < |varOrder| && Refine(activity, varOrder, score, r, k) == Refine(activity, varOrder, score, q, step)
        decreases k
      {
        if r >= k && ScoreOf(activity, varOrder[r - k]) < score {
          r := r - k;
        }
        k := k / 2;
      }
    }

    /** updateScores on a clause of assigned literals. */
    method ScoreAssigned(c: seq<int>)
      requires OrdersOk() && forall x :: x in c ==> LitOk(vc, x) && Val(value, x) != 0
      modifies `activity, `varOrder, `varPosition, `moved
      ensures OrdersOk() && RescoredBy(old(Rank()), c, Rank())
    {
      hide OrderOk;
      hide SkipOk;
      hide ScoringOk;
      hide RescoredBy;
      SkipZero(vc, value, varOrder, varPosition, ordered, nextVar, skipped + moved);
      UpdateScores(c, 0);
      SkipZero(vc, value, varOrder, varPosition, ordered, nextVar, skipped + moved);
    }

    /** The variable of l, at position it, takes place q. If it is free, and not the one being freed, a stale slot named it: should it
        pass the starting point of the next scan on the way, nothing will bring the scan back to it. */
    method Promote(it: nat, q: nat, l: int, ghost free: nat)
      requires OrdersOkBut(free) && Scorable(vc, imp, value, free, l) && RankShape(Rank())
      requires varPosition[VarOf(l)] == it && 0 < it < |varOrder| && q <= it
      modifies `varOrder, `varPosition, `moved
      ensures OrdersOkBut(free) && Rank() == Swapped(old(Rank()), VarOf(l), it, q)
    {
      hide ScoringOk;
      ghost var moved0, rank := moved, Rank();
      var v := VarOf(l);
      assert varOrder[it] == v by {
        assert v in varOrder;
      }
      SwappedOrder(vc, rank, ordered, v, it, q);
      if Val(value, v) == 0 && v != free && q < nextVar <= it {
        assert Val(value, l) == 0;
        moved := moved + {v};
      }
      ScoringKept(vc, imp, slot, activity, phase, moved0, activity, phase, moved);
      var u := varOrder[q];
      varOrder := varOrder[it := u];
      varPosition := varPosition[v := q];
      varPosition := varPosition[u := it];
      varOrder := varOrder[q := v];
    }

    /** The nextVar update on freeing variable v. */
    method LowerNextVar(v: nat)
      requires OrdersOkBut(v) && v <= vc
      modifies `nextVar
      ensures OrdersOk() && nextVar == Lowered(varPosition, old(nextVar), v)
    {
      hide ScoringOk;
      if varPosition[v] < nextVar {
        nextVar := varPosition[v];
      }
    }

    // --------------------------------------------------------- learning

    /** Marks the literals of c set above the root level: lower ones go to tmp, current ones are counted. */
    method MarkLits(c: seq<int>, tmp: seq<int>, n: nat, ghost cur: set<int>) returns (tmp': seq<int>, n': nat,
                    ghost cur': set<int>)
      requires |level| == vc + 1 && TrailOk(vc, value, level, trail, dLevel) && RootSound(base, level, trail)
      requires Analysis(vc, level, trail, dLevel, mark, tmp, cur) && n == |cur|
      requires forall k :: 0 <= k < |c| ==> LitOk(vc, c[k]) && -c[k] in trail
      modifies `mark
      ensures Analysis(vc, level, trail, dLevel, mark, tmp', cur') && n' == |cur'|
      ensures (forall x :: x in tmp ==> x in tmp') && cur <= cur'
      ensures forall k :: 0 <= k < |c| ==> Covered(base, level, c[k], tmp', cur') && InCurrent(level, dLevel, c[k], cur')
      ensures Marks(mark, tmp', n') == MarkedAll(level, dLevel, Marks(old(mark), tmp, n), c)
    {
      hide Analysis;
      hide Covered;
      hide TrailOk;
      hide RootSound;
      hide MarkedOne;
      tmp', n', cur' := tmp, n, cur;
      for k := 0 to |c|
        invariant Analysis(vc, level, trail, dLevel, mark, tmp', cur') && n' == |cur'|
        invariant (forall x :: x in tmp ==> x in tmp') && cur <= cur'
        invariant forall j :: 0 <= j < k ==> Covered(base, level, c[j], tmp', cur') && InCurrent(level, dLevel, c[j], cur')
        invariant Marks(mark, tmp', n') == MarkedAll(level, dLevel, Marks(old(mark), tmp, n), c[..k])
      {
        ghost var tmp0, cur0 := tmp', cur';
        assert c[..k + 1][..k] == c[..k];
        tmp', n', cur' := MarkLit(c[k], tmp', n', cur');
        CoveredGrows(base, level, c, k, tmp0, cur0, tmp', cur');
      }
      assert c[..|c|] == c;
    }

    method MarkLit(x: int, tmp: seq<int>, n: nat, ghost cur: set<int>) returns (tmp': seq<int>, n': nat, ghost cur': set<int>)
      requires |level| == vc + 1 && TrailOk(vc, value, level, trail, dLevel) && RootSound(base, level, trail)
      requires Analysis(vc, level, trail, dLevel, mark, tmp, cur) && n == |cur| && LitOk(vc, x) && -x in trail
      modifies `mark
      ensures Analysis(vc, level, trail, dLevel, mark, tmp', cur') && n' == |cur'|
      ensures (forall y :: y in tmp ==> y in tmp') && cur <= cur' && Covered(base, level, x, tmp', cur') && InCurrent(level, dLevel, x, cur')
      ensures Marks(mark, tmp', n') == MarkedOne(level, dLevel, Marks(old(mark), tmp, n), x)
    {
      hide Analysis;
      hide TrailOk;
      hide RootSound;
      MarkSize(vc, level, trail, dLevel, mark, tmp, cur);
      LevelsAtRoot(vc, value, level, trail, dLevel);
      tmp', n', cur' := tmp, n, cur;
      if mark[VarOf(x)] || level[VarOf(x)] == 1 {
        SkippedCovered(base, St(), mark, tmp, cur, x);
        return;
      }
      if level[VarOf(x)] < dLevel {
        MarkLower(vc, level, trail, dLevel, mark, tmp, cur, x);
        tmp' := tmp + [x];
        assert tmp'[|tmp|] == x;
      } else {
        MarkCurrent(vc, level, trail, dLevel, mark, tmp, cur, x);
        cur' := cur + {x};
        n' := n + 1;
      }
      mark := mark[VarOf(x) := true];
    }
  
    /** A variable that becomes free may be one the next scan does not find. */
    method Free(v: nat)
      requires OrdersOk() && v < |value|
      modifies `value
      ensures OrdersOkBut(v) && value == old(value)[v := 0]
    {
      hide OrderOk;
      hide ScoringOk;
      SkipFreed(value, varOrder, nextVar, skipped + moved, v);
      value := value[v := 0];
    }

    /** backtrack remembers the sign of a literal that was not set at the last level. */
    method SavePhase(v: nat)
      requires OrdersOk() && v <= vc && |value| == |level| == vc + 1
      modifies `phase
      ensures OrdersOk() && |phase| == vc + 1
      ensures phase == if level[v] < dLevel then old(phase)[v := value[v] == 1] else old(phase)
    {
      hide OrderOk;
      hide SkipOk;
      ScoringSizes(vc, imp, slot, activity, phase, moved);
      hide ScoringOk;
      ghost var phase0 := phase;
      if level[v] < dLevel {
        phase := phase[v := value[v] == 1];
      }
      ScoringKept(vc, imp, slot, activity, phase0, moved, activity, phase, moved);
    }

    /** Pops the top literal of the current level. */
    method PopTop(ghost b: nat) returns (l: int)
      requires dLevel == b + 1 >= 2 && InvBelow(base, St(), b, -1) && OrdersOk() && trail != [] && Lev(level, trail[|trail| - 1]) == dLevel
      modifies `trail, `value
      ensures l == old(trail)[|old(trail)| - 1] && trail == old(trail)[..|old(trail)| - 1] && RootsKept(level, old(trail), level, trail)
      ensures InvBelow(base, St(), b, -1) && TopFacts(base, old(St()), St(), l)
      ensures VarOf(l) < |old(value)| && value == FreedAt(old(value), l)
      ensures OrdersOkBut(VarOf(l))
    {
      hide InvBelow;
      hide OrderOk;
      hide SkipOk;
      hide ScoringOk;
      hide UpStep;
      ghost var s0 := St();
      PopFacts(base, s0, b);
      PopKeeps(base, s0, b, -1);
      hide TopFacts;
      RootsPopped(level, trail);
      hide RootsKept;
      hide OrdersOk;
      hide OrdersOkBut;
      l := trail[|trail| - 1];
      trail := trail[..|trail| - 1];
      Free(VarOf(l));
    }

    /** One round of the analysis: pops the top literal and, if it is marked, resolves it away, unless it is the last
        marked literal of the current level, the UIP. */
    method PopAndResolve(tmp: seq<int>, n: nat, ghost cur: set<int>, ghost b: nat)
      returns (done: bool, uip: int, tmp': seq<int>, n': nat, ghost cur': set<int>)
      requires dLevel == b + 1 >= 2 && InvBelow(base, St(), b, -1) && OrdersOk()
      requires Analysis(vc, level, trail, dLevel, mark, tmp, cur) && n == |cur| >= 1 && EntailsUnion(base, tmp, cur)
      modifies `trail, `value, `mark, `activity, `varOrder, `varPosition, `moved, `nextVar
      ensures |old(trail)| > 0 && trail == old(trail)[..|old(trail)| - 1] && RootsKept(level, old(trail), level, trail)
      ensures InvBelow(base, St(), b, -1) && OrdersOk()
      ensures !done ==> Analysis(vc, level, trail, dLevel, mark, tmp', cur') && n' == |cur'| >= 1 && EntailsUnion(base, tmp', cur')
      ensures done ==> tmp' == tmp && UipFound(base, vc, value, level, trail, dLevel, mark, tmp, uip)
      ensures Analysed(store, level, ante, slot, dLevel, old(trail), Marks(old(mark), tmp, n), old(Rank()), old(nextVar)) ==
        if done then Uip(uip, Marks(mark, tmp', 0), Rank(), nextVar, |trail|)
        else Analysed(store, level, ante, slot, dLevel, trail, Marks(mark, tmp', n'), Rank(), nextVar)
    {
      hide InvBelow;
      hide Analysis;
      hide EntailsUnion;
      hide OrderOk;
      hide SkipOk;
      hide ScoringOk;
      hide OrdersOk;
      hide OrdersOkBut;
      hide UpStep;
      hide TrailOk;
      hide RootSound;
      hide TopFacts;
      hide UipFound;
      hide RootsKept;
      hide Analysed;
      hide AnalysisStep;
      hide RescoredBy;
      hide Lowered;
      ghost var s0 := St();
      CurrentTop(base, s0, b, mark, tmp, cur);
      AnalysedStep(store, level, ante, slot, dLevel, trail, Marks(mark, tmp, n), Rank(), nextVar);
      MarkSize(vc, level, trail, dLevel, mark, tmp, cur);
      var l := PopTop(b);
      TopUnfold(base, s0, St(), l);
      if !mark[VarOf(l)] {
        PopUnmarked(vc, level, s0.trail, dLevel, mark, tmp, cur);
        LowerNextVar(VarOf(l));
        return false, 0, tmp, n, cur;
      }
      done, tmp', n', cur' := Resolve(l, tmp, n, cur, b, s0);
      uip := l;
    }

    /** Resolves the popped marked literal l with its antecedent, if it is not the UIP. */
    method Resolve(l: int, tmp: seq<int>, n: nat, ghost cur: set<int>, ghost b: nat, ghost s0: State)
      returns (done: bool, tmp': seq<int>, n': nat, ghost cur': set<int>)
      requires InvBelow(base, s0, b, -1) && InvBelow(base, St(), b, -1) && TopFacts(base, s0, St(), l) && s0.dLevel == b + 1 >= 2
      requires s0.trail != [] && l == s0.trail[|s0.trail| - 1] && Lev(s0.level, l) == s0.dLevel
      requires St() == s0.(trail := trail, value := value) && trail == s0.trail[..|s0.trail| - 1] && value == FreedAt(s0.value, l)
      requires OrdersOkBut(VarOf(l))
      requires Analysis(vc, level, s0.trail, dLevel, mark, tmp, cur) && n == |cur| >= 1 && EntailsUnion(base, tmp, cur)
      requires VarOf(l) < |mark| && mark[VarOf(l)]
      modifies `mark, `activity, `varOrder, `varPosition, `moved, `nextVar
      ensures OrdersOk()
      ensures !done ==> Analysis(vc, level, trail, dLevel, mark, tmp', cur') && n' == |cur'| >= 1 && EntailsUnion(base, tmp', cur')
      ensures done ==> tmp' == tmp && UipFound(base, vc, value, level, trail, dLevel, mark, tmp, l)
      ensures AnalysisStep(store, level, ante, slot, dLevel, s0.trail, Marks(old(mark), tmp, n), old(Rank()), old(nextVar)) ==
        (Marks(mark, tmp', n'), Rank(), nextVar)
      ensures (done <==> n == 1) && (done ==> n' == 0)
    {
      hide InvBelow;
      hide Analysis;
      hide EntailsUnion;
      hide OrderOk;
      hide SkipOk;
      hide ScoringOk;
      hide OrdersOk;
      hide OrdersOkBut;
      hide UpStep;
      hide TrailOk;
      hide RootSound;
      hide TopFacts;
      hide UipFound;
      hide RootsKept;
      hide AnteLits;
      hide ScoredLits;
      hide Scorable;
      hide RescoredBy;
      hide Covered;
      hide Models;
      hide Satisfies;
      hide Rated;
      hide MarkedAll;
      hide Lowered;
      hide LitOk;
      hide InCurrent;
      var v := VarOf(l);
      TopUnfold(base, s0, St(), l);
      PopMarked(vc, s0.value, level, s0.trail, dLevel, mark, tmp, cur);
      mark := mark[v := false];
      ScoreAntecedent(l, b, s0);
      LowerNextVar(v);
      ghost var rest := cur - {-l};
      if n == 1 {
        LastOne(base, tmp, cur, -l);
        UipIntro(base, vc, value, level, trail, dLevel, mark, tmp, l);
        return true, tmp, 0, {};
      }
      ResolvableTop(base, s0, b, mark, tmp, rest);
      tmp', n', cur' := MarkLits(AnteLits(store, ante[v]), tmp, n - 1, rest);
      ResolventStep(base, level, l, AnteLits(store, ante[v]), tmp, cur, tmp', cur');
      CardinalityAtLeast(rest, cur');
      done := false;
    }

    /** The scores that rise when the popped literal l is resolved, none if it was decided. */
    method ScoreAntecedent(l: int, ghost b: nat, ghost s0: State)
      requires InvBelow(base, s0, b, -1) && TopFacts(base, s0, St(), l) && s0.dLevel == b + 1 >= 2
      requires s0.trail != [] && l == s0.trail[|s0.trail| - 1] && Lev(s0.level, l) == s0.dLevel
      requires St() == s0.(trail := trail, value := value) && trail == s0.trail[..|s0.trail| - 1] && value == FreedAt(s0.value, l)
      requires OrdersOkBut(VarOf(l))
      modifies `activity, `varOrder, `varPosition, `moved
      ensures OrdersOkBut(VarOf(l)) && Rank() == Rated(old(Rank()), ScoredLits(store, slot, AnteOf(ante, l)))
    {
      hide InvBelow;
      hide OrderOk;
      hide SkipOk;
      hide ScoringOk;
      hide OrdersOkBut;
      hide TopFacts;
      hide ScoredLits;
      hide Scorable;
      hide RescoredBy;
      hide Rated;
      ghost var rank := Rank();
      TopUnfold(base, s0, St(), l);
      var v := VarOf(l);
      if ante[v] != Decided {
        OrdersButOpen(v);
        ScoreLits(base, s0, b, slot, activity, phase, moved);
        UpdateScores(ScoredLits(store, slot, ante[v]), v);
        RatedBy(rank, ScoredLits(store, slot, ante[v]), Rank());
      } else {
        RatedNone(store, slot, rank);
      }
    }

    /** The 1-UIP loop. */
    method FindUip(c: seq<int>, ghost b: nat) returns (uip: int, tmp: seq<int>)
      requires dLevel == b + 1 >= 2 && InvBelow(base, St(), b, -1) && OrdersOk() && AllClear(vc, mark)
      requires Entails(base, c) && forall k :: 0 <= k < |c| ==> LitOk(vc, c[k]) && -c[k] in trail
      requires exists k :: 0 <= k < |c| && Lev(level, c[k]) == dLevel
      modifies `trail, `value, `mark, `activity, `varOrder, `varPosition, `moved, `nextVar
      ensures trail <= old(trail) && InvBelow(base, St(), b, -1) && OrdersOk() && RootsKept(level, old(trail), level, trail)
      ensures UipFound(base, vc, value, level, trail, dLevel, mark, tmp, uip)
      ensures Analysed(store, level, ante, slot, dLevel, old(trail), MarkedAll(level, dLevel, Marks(old(mark), [], 0), c), old(Rank()), old(nextVar))
        == Uip(uip, Marks(mark, tmp, 0), Rank(), nextVar, |trail|)
    {
      hide InvBelow;
      hide Analysis;
      hide EntailsUnion;
      hide OrderOk;
      hide SkipOk;
      hide ScoringOk;
      hide OrdersOk;
      hide OrdersOkBut;
      hide UpStep;
      hide TrailOk;
      hide RootSound;
      hide UipFound;
      hide Entails;
      hide AllClear;
      hide Covered;
      hide Analysed;
      hide MarkedAll;
      hide RootsKept;
      TrailHolds(base, St(), b, -1);
      AnalysisStart(vc, level, trail, dLevel, mark);
      var n;
      ghost var cur;
      tmp, n, cur := MarkLits(c, [], 0, {});
      ResolventStart(base, level, c, tmp, cur);
      SomeCurrent(level, dLevel, c, cur);
      var done := false;
      uip := 0;
      RootsSame(level, old(trail));
      ghost var found := Analysed(store, level, ante, slot, dLevel, trail, Marks(mark, tmp, n), Rank(), nextVar);
      while !done
        invariant dLevel == b + 1 && trail <= old(trail) && InvBelow(base, St(), b, -1) && OrdersOk()
        invariant RootsKept(level, old(trail), level, trail)
        invariant !done ==> Analysis(vc, level, trail, dLevel, mark, tmp, cur) && n == |cur| >= 1 && EntailsUnion(base, tmp, cur)
        invariant done ==> UipFound(base, vc, value, level, trail, dLevel, mark, tmp, uip)
        invariant found == if done then Uip(uip, Marks(mark, tmp, 0), Rank(), nextVar, |trail|)
          else Analysed(store, level, ante, slot, dLevel, trail, Marks(mark, tmp, n), Rank(), nextVar)
        decreases !done, |trail|
      {
        ghost var trail1 := trail;
        done, uip, tmp, n, cur := PopAndResolve(tmp, n, cur, b);
        RootsTransitive(level, old(trail), level, trail1, level, trail);
      }
    }

    /** Local minimisation of the literals below the current level, the first of the highest level kept in front. */
    method BuildConflict(tmp: seq<int>) returns (lits: seq<int>)
      requires Analysis(vc, level, trail, dLevel, mark, tmp, {})
      modifies `aLevel
      ensures DequeOk(level, lits, aLevel) && Kept(St(), mark, tmp, lits) && (lits, aLevel) == Minimised(store, level, ante, mark, tmp)
    {
      hide Redundant;
      MinimisedKeeps(St(), mark, tmp);
      hide Kept;
      DistinctLower(vc, level, trail, dLevel, mark, tmp);
      hide Analysis;
      aLevel := 1;
      lits := [];
      for k := 0 to |tmp|
        invariant DequeOk(level, lits, aLevel)
        invariant forall x :: x in lits ==> x in tmp[..k]
        invariant (lits, aLevel) == Minimised(store, level, ante, mark, tmp[..k])
      {
        var x := tmp[k];
        assert x !in tmp[..k];
        assert tmp[..k + 1] == tmp[..k] + [x];
        if !Redundant(store, ante, mark, x) {
          if level[VarOf(x)] > aLevel {
            aLevel := level[VarOf(x)];
            lits := [x] + lits;
          } else {
            lits := lits + [x];
          }
        }
      }
      assert tmp[..|tmp|] == tmp;
    }

    method ClearMarks(tmp: seq<int>)
      requires Analysis(vc, level, trail, dLevel, mark, tmp, {})
      modifies `mark
      ensures AllClear(vc, mark)
    {
      ghost var mark0 := mark;
      DistinctLower(vc, level, trail, dLevel, mark, tmp);
      MarkSize(vc, level, trail, dLevel, mark, tmp, {});
      hide Analysis;
      for k := 0 to |tmp|
        invariant |mark| == vc + 1
        invariant forall v :: 0 <= v <= vc && mark[v] ==> mark0[v]
        invariant forall j :: 0 <= j < k ==> !Marked(mark, tmp[j])
      {
        mark := mark[VarOf(tmp[k]) := false];
      }
      AnalysisOver(vc, level, trail, dLevel, mark0, tmp, mark);
    }

    /** addClause: a clause of two or more literals is stored and its first two literals are watched. */
    method AddClause(lits: seq<int>)
      requires lits != [] && ClauseShape(vc, lits) && ListShape(vc, imp, watch)
      modifies `store, `watch, `learned
      ensures |lits| == 1 ==> St() == old(St()) && learned == Unit(lits[0])
      ensures |lits| >= 2 ==> lits[|lits| - 1] != lits[0] && lits[|lits| - 1] in old(watch) && lits[0] in old(watch)
      ensures |lits| >= 2 ==> St() == Added(old(St()), Arranged(lits)) && learned == Clause(old(|store|))
    {
      if |lits| == 1 {
        learned := Unit(lits[0]);
        return;
      }
      var back, front := lits[|lits| - 1], lits[0];
      var id := |store|;
      var clause := [back, front];
      for i := 1 to |lits| - 1
        invariant clause == [back, front] + lits[1..i]
      {
        clause := clause + [lits[i]];
      }
      store := store + [clause];
      learned := Clause(id);
      watch := watch[back := watch[back] + [id]];
      watch := watch[front := watch[front] + [id]];
    }

    /** learnClause once the UIP is known. */
    method Learn(uip: int, tmp: seq<int>)
      requires dLevel >= 2 && InvBelow(base, St(), dLevel - 1, -1)
      requires UipFound(base, vc, value, level, trail, dLevel, mark, tmp, uip)
      modifies `mark, `store, `watch, `aLevel, `learned
      ensures AllClear(vc, mark) && old(store) <= store && LearnedOk(base, St(), aLevel, learned)
      ensures Concludes(old(store), level, ante, old(mark), tmp, uip, store, aLevel, learned)
    {
      hide Minimised;
      hide InvBelow;
      hide Analysis;
      hide UipFound;
      hide AllClear;
      hide LearnedOk;
      hide ListShape;
      hide ClauseShape;
      hide DequeOk;
      hide Kept;
      hide Arranged;
      UipUnfold(base, vc, value, level, trail, dLevel, mark, tmp, uip);
      var lits := BuildConflict(tmp);
      ListsHold(base, St(), dLevel - 1, -1);
      LearnedReady(base, St(), mark, tmp, lits, aLevel, uip);
      ClearMarks(tmp);
      AddClause(lits + [-uip]);
    }

    /** learnClause on the falsified clause c. */
    method LearnClause(c: seq<int>)
      requires dLevel >= 1 && InvBelow(base, St(), dLevel - 1, -1) && OrdersOk() && AllClear(vc, mark)
      requires Entails(base, c) && forall k :: 0 <= k < |c| ==> LitOk(vc, c[k]) && -c[k] in trail
      requires dLevel >= 2 ==> exists k :: 0 <= k < |c| && Lev(level, c[k]) == dLevel
      modifies `trail, `value, `mark, `activity, `varOrder, `varPosition, `moved, `nextVar, `store, `watch, `aLevel,
               `learned
      ensures Conflicted() && old(store) <= store && RootsKept(level, old(trail), level, trail)
      ensures LearnsAt(old(St()), slot, c, old(Rank()), old(nextVar), St(), Rank(), nextVar, aLevel, learned)
    {
      hide InvBelow;
      hide OrdersOk;
      hide Entails;
      hide AllClear;
      hide LearnedOk;
      hide RootsKept;
      hide Satisfiable;
      hide LitOk;
      hide Lev;
      hide Learns;
      hide TrailOk;
      hide RootSound;
      if dLevel == 1 {
        TrailHolds(base, St(), 0, -1);
        RootsSame(level, trail);
        aLevel := 0;
        RootConflict(base, St(), c);
        return;
      }
      LearnAbove(c);
    }

    /** The same above the root level. */
    method LearnAbove(c: seq<int>)
      requires dLevel >= 2 && InvBelow(base, St(), dLevel - 1, -1) && OrdersOk() && AllClear(vc, mark)
      requires Entails(base, c) && forall k :: 0 <= k < |c| ==> LitOk(vc, c[k]) && -c[k] in trail
      requires exists k :: 0 <= k < |c| && Lev(level, c[k]) == dLevel
      modifies `trail, `value, `mark, `activity, `varOrder, `varPosition, `moved, `nextVar, `store, `watch, `aLevel,
               `learned
      ensures OrdersOk() && AllClear(vc, mark) && LearnedOk(base, St(), aLevel, learned)
      ensures old(store) <= store && RootsKept(level, old(trail), level, trail)
      ensures Learns(old(St()), slot, c, old(Rank()), old(nextVar), St(), Rank(), nextVar, aLevel, learned)
    {
      hide InvBelow;
      hide OrdersOk;
      hide UipFound;
      hide Entails;
      hide AllClear;
      hide LearnedOk;
      hide RootsKept;
      hide LitOk;
      hide Lev;
      hide AnalysisOf;
      hide Concludes;
      hide Learns;
      ghost var s0, rank, next := St(), Rank(), nextVar;
      var uip, tmp := Analyse(c);
      ghost var u := Uip(uip, Marks(mark, tmp, 0), Rank(), nextVar, |trail|);
      Learn(uip, tmp);
      LearnsIntro(s0, slot, c, rank, next, u, St(), aLevel, learned);
    }

    /** Its analysis: scores c and finds the UIP. */
    method Analyse(c: seq<int>) returns (uip: int, tmp: seq<int>)
      requires dLevel >= 2 && InvBelow(base, St(), dLevel - 1, -1) && OrdersOk() && AllClear(vc, mark)
      requires Entails(base, c) && forall k :: 0 <= k < |c| ==> LitOk(vc, c[k]) && -c[k] in trail
      requires exists k :: 0 <= k < |c| && Lev(level, c[k]) == dLevel
      modifies `trail, `value, `mark, `activity, `varOrder, `varPosition, `moved, `nextVar
      ensures trail <= old(trail) && InvBelow(base, St(), dLevel - 1, -1) && OrdersOk() && RootsKept(level, old(trail), level, trail)
      ensures UipFound(base, vc, value, level, trail, dLevel, mark, tmp, uip)
      ensures AnalysisOf(old(St()), slot, c, old(Rank()), old(nextVar)) == Uip(uip, Marks(mark, tmp, 0), Rank(), nextVar, |trail|)
    {
      hide InvBelow;
      hide OrdersOk;
      hide TrailOk;
      hide RootSound;
      hide UipFound;
      hide Entails;
      hide AllClear;
      hide RootsKept;
      hide RescoredBy;
      hide LitOk;
      hide Lev;
      hide Val;
      hide Analysed;
      hide AnalysisOf;
      hide MarkedAll;
      hide Rated;
      ghost var rank := Rank();
      TrailHolds(base, St(), dLevel - 1, -1);
      FalseLits(vc, value, c, trail);
      AnalysisIntro(St(), slot, c, rank, nextVar, mark);
      ScoreAssigned(c);
      RatedBy(rank, c, Rank());
      uip, tmp := FindUip(c, dLevel - 1);
    }

    // --------------------------------------------------------- propagation

    /** setLiteral, and the literal pushed on the stack. */
    method Push(l: int, a: Ante)
      requires LitOk(vc, l) && |value| == |level| == |ante| == vc + 1 && Val(value, l) >= 0 && OrdersOkBut(VarOf(l))
      modifies `value, `level, `ante, `trail
      ensures St() == Place(old(St()), l, a) && OrdersOk()
    {
      hide OrderOk;
      hide ScoringOk;
      PlaceVals(value, l);
      value := value[VarOf(l) := SignOf(l)];
      level := level[VarOf(l) := dLevel];
      ante := ante[VarOf(l) := a];
      trail := trail + [l];
    }

    /** The binary clauses of the false literal -trail[head]. */
    method PropagateBinaries(head: nat, ghost pending: set<int>) returns (ok: bool)
      requires dLevel >= 1 && head < |trail| && Busy(pending, head, 0, [])
      requires LitOk(vc, trail[head]) && Lev(level, trail[head]) == dLevel
      modifies `trail, `value, `level, `ante, `mark, `activity, `varOrder, `varPosition, `moved, `nextVar, `store,
               `watch, `aLevel, `learned, `slot, `nConflicts
      ensures ok ==> old(trail) <= trail && Busy(pending, head, 0, []) && BinaryListTrue(vc, imp, value, -trail[head])
      ensures ok ==> Lev(level, trail[head]) == dLevel
      ensures !ok ==> Conflicted()
      ensures UpStep(old(store), imp, old(trail), trail, ok) && (ok ==> Books() == old(Books()))
      ensures old(store) <= store && RootsKept(old(level), old(trail), level, trail)
    {
      hide Inv;
      hide InvBelow;
      hide OrderOk;
      hide Conflicted;
      hide Books;
      hide SkipOk;
      hide ScoringOk;
      hide OrdersOk;
      hide OrdersOkBut;
      hide UpStep;
      hide AllClear;
      hide TrailOk;
      hide ListShape;
      hide StoreShape;
      hide Filed;
      hide StoreSound;
      hide RootSound;
      hide Entails;
      hide RootsKept;
      hide Todo;
      hide LearnedOk;
      hide Satisfiable;
      var p := trail[head];
      RootsSame(level, trail);
      BusyFacts(base, St(), Todo(pending, trail, head), 0, []);
      ListFacts(vc, imp, watch, -p);
      TrailFacts(vc, value, level, trail, dLevel);
      var list := imp[-p];
      UpNone(store, imp, trail);
      EvolvesAdded(cc, store, store);
      for k := 0 to |list|
        invariant old(trail) <= trail && trail[head] == p && Busy(pending, head, 0, []) && Lev(level, p) == dLevel
        invariant forall j :: 0 <= j < k ==> Val(value, list[j]) == 1
        invariant p in trail && Val(value, p) == 1
        invariant store == old(store) && RootsKept(old(level), old(trail), level, trail)
        invariant UpStep(store, imp, old(trail), trail, true) && Books() == old(Books())
      {
        ghost var level1, trail1 := level, trail;
        ok := PropagateBinary(p, list[k], head, pending);
        RootsTransitive(old(level), old(trail), level1, trail1, level, trail);
        UpChain(cc, old(store), old(store), imp, old(trail), trail1, trail, ok);
        if !ok {
          return;
        }
      }
      ok := true;
    }

    /** One binary clause (o or -p) of the false literal -p. */
    method PropagateBinary(p: int, o: int, head: nat, ghost pending: set<int>) returns (ok: bool)
      requires dLevel >= 1 && head < |trail| && trail[head] == p && Busy(pending, head, 0, [])
      requires LitOk(vc, p) && Lev(level, p) == dLevel && -p in imp && o in imp[-p] && LitOk(vc, o)
      modifies `trail, `value, `level, `ante, `mark, `activity, `varOrder, `varPosition, `moved, `nextVar, `store,
               `watch, `aLevel, `learned, `slot, `nConflicts
      ensures ok ==> old(trail) <= trail && Busy(pending, head, 0, []) && Val(value, o) == 1 && store == old(store)
      ensures ok ==> forall x :: old(Val(value, x)) != 0 ==> Val(value, x) == old(Val(value, x)) && Lev(level, x) == old(Lev(level, x))
      ensures !ok ==> Conflicted()
      ensures UpStep(old(store), imp, old(trail), trail, ok) && (ok ==> Books() == old(Books()))
      ensures old(store) <= store && RootsKept(old(level), old(trail), level, trail)
    {
      hide Inv;
      hide InvBelow;
      hide OrderOk;
      hide Conflicted;
      hide SkipOk;
      hide ScoringOk;
      hide OrdersOk;
      hide OrdersOkBut;
      hide UpStep;
      hide AllClear;
      hide TrailOk;
      hide ListShape;
      hide StoreShape;
      hide Filed;
      hide StoreSound;
      hide RootSound;
      hide Entails;
      hide RootsKept;
      hide Todo;
      hide LearnedOk;
      hide Satisfiable;
      ghost var s0 := St();
      BusyFacts(base, s0, Todo(pending, trail, head), 0, []);
      TrailFacts(vc, value, level, trail, dLevel);
      RootsSame(level, trail);
      UpNone(store, imp, trail);
      if Val(value, o) == 0 {
        BinaryImplied(base, s0, Todo(pending, trail, head), p, o);
        RootsPlaced(level, trail, value, level, trail, o, dLevel);
        TodoPlaced(pending, trail, head, o);
        PlaceKeepsTrue(value, level, o, dLevel);
        OrdersWider(VarOf(o));
        UpBinary(store, imp, trail, p, o);
        Push(o, Binary(-p));
      } else if Val(value, o) == -1 {
        RefuteBinary(p, o, head, pending);
        return false;
      }
      ok := true;
    }

    /** The other literal of a binary clause is false as well. */
    method RefuteBinary(p: int, o: int, head: nat, ghost pending: set<int>)
      requires dLevel >= 1 && head < |trail| && trail[head] == p && Busy(pending, head, 0, [])
      requires LitOk(vc, p) && Lev(level, p) == dLevel && -p in imp && o in imp[-p] && LitOk(vc, o) && Val(value, o) == -1
      modifies `trail, `value, `mark, `activity, `varOrder, `varPosition, `moved, `nextVar, `store, `watch, `aLevel,
               `learned, `slot, `nConflicts
      ensures Conflicted() && old(store) <= store && RootsKept(level, old(trail), level, trail)
      ensures slot == old(slot)[-p := o] && UpStep(old(store), imp, old(trail), trail, false) && nConflicts == old(nConflicts) + 1
      ensures LearnsAt(old(St()), slot, [o, -p], old(Rank()), old(nextVar), St(), Rank(), nextVar, aLevel, learned)
    {
      hide LearnsAt;
      hide Inv;
      hide InvBelow;
      hide Conflicted;
      hide OrderOk;
      hide SkipOk;
      hide ScoringOk;
      hide OrdersOk;
      hide OrdersOkBut;
      hide UpStep;
      hide AllClear;
      hide TrailOk;
      hide Entails;
      hide RootsKept;
      hide Todo;
      ghost var s0 := St();
      BinaryConflict(base, s0, Todo(pending, trail, head), p, o);
      nConflicts := nConflicts + 1;
      FillSlot(-p, o);
      var c := [slot[-p], -p];
      assert Lev(level, c[1]) == dLevel;
      LearnClause(c);
      UpBinaryConflict(s0.store, imp, s0.trail, trail, p, o);
    }

    /** A conflict on a binary clause leaves its literal in slot 0 of the implication list, in front of the list's own literal. */
    method FillSlot(l: int, o: int)
      requires OrdersOk() && l in imp && o in imp[l]
      modifies `slot
      ensures OrdersOk() && slot == old(slot)[l := o]
    {
      hide OrderOk;
      hide SkipOk;
      SlotFilled(vc, imp, slot, activity, phase, moved, l, o);
      hide ScoringOk;
      slot := slot[l := o];
    }

    /** Looks beyond the watched literals of c for one that is not false. */
    method FindWatch(c: seq<int>) returns (k: nat)
      requires |c| >= 2
      ensures 2 <= k <= |c| && (k < |c| ==> Val(value, c[k]) != -1) && forall j :: 2 <= j < k ==> Val(value, c[j]) == -1
    {
      k := 2;
      while k < |c| && Val(value, c[k]) == -1
        invariant 2 <= k <= |c| && forall j :: 2 <= j < k ==> Val(value, c[j]) == -1
      {
        k := k + 1;
      }
    }

    /** One entry of the watch list of the false literal litFalse: its clause is satisfied, or its watch is moved, or it
        implies its other watch, or it is falsified. */
    method VisitClause(litFalse: int, i: nat, ghost head: nat, ghost pending: set<int>) returns (ok: bool, i': nat)
      requires dLevel >= 1 && litFalse in watch && i < |watch[litFalse]| && Busy(pending, head, litFalse, watch[litFalse][i..])
      requires LitOk(vc, litFalse) && Val(value, litFalse) == -1 && Lev(level, litFalse) == dLevel
      modifies `trail, `value, `level, `ante, `mark, `activity, `varOrder, `varPosition, `moved, `nextVar, `store,
               `watch, `aLevel, `learned, `slot, `nConflicts
      ensures ok ==> litFalse in watch && i' <= |watch[litFalse]| && |watch[litFalse]| - i' < old(|watch[litFalse]|) - i
      ensures ok ==> Busy(pending, head, litFalse, watch[litFalse][i'..]) && old(trail) <= trail
      ensures ok ==> Val(value, litFalse) == -1 && Lev(level, litFalse) == dLevel
      ensures !ok ==> Conflicted()
      ensures UpStep(old(store), imp, old(trail), trail, ok) && (ok ==> Books() == old(Books()))
      ensures Evolves(cc, old(store), store) && RootsKept(old(level), old(trail), level, trail)
    {
      hide Inv;
      hide InvBelow;
      hide OrderOk;
      hide Conflicted;
      hide SkipOk;
      hide ScoringOk;
      hide OrdersOk;
      hide OrdersOkBut;
      hide UpStep;
      hide AllClear;
      hide TrailOk;
      hide ListShape;
      hide StoreShape;
      hide Filed;
      hide StoreSound;
      hide RootSound;
      hide Entails;
      hide RootsKept;
      hide Todo;
      hide LearnedOk;
      hide Satisfiable;
      hide Evolves;
      hide Swap;
      hide Refile;
      hide Watched;
      ghost var s, todo, rest := St(), Todo(pending, trail, head), watch[litFalse][i..];
      BusyFacts(base, s, todo, litFalse, rest);
      var id := watch[litFalse][i];
      EntryFacts(vc, cc, store, watch, litFalse, i);
      RootsSame(level, trail);
      EvolvesAdded(cc, store, store);
      UpNone(store, imp, trail);
      var c := store[id];
      var w := if c[0] == litFalse then 0 else 1;
      if Val(value, c[1 - w]) == 1 {
        PartneredVisit(base, s, todo, -1, litFalse, rest, w);
        return true, i + 1;
      }
      var k := FindWatch(c);
      if k < |c| {
        MoveWatch(litFalse, i, w, k, head, pending);
        return true, i;
      }
      ok := ImplyOther(litFalse, i, w, head, pending);
      i' := i + 1;
    }

    /** The watch moves from the false literal to the literal at position k: the reference is filed there, and the list being walked gives
        it up by moving its last entry into the gap. */
    method MoveWatch(litFalse: int, i: nat, w: nat, k: nat, ghost head: nat, ghost pending: set<int>)
      requires litFalse in watch && i < |watch[litFalse]| && Busy(pending, head, litFalse, watch[litFalse][i..])
      requires w <= 1 && Watched(cc, store, watch[litFalse][i]) && store[watch[litFalse][i]][w] == litFalse
      requires var c := store[watch[litFalse][i]]; 2 <= k < |c| && LitOk(vc, litFalse) && Val(value, litFalse) == -1 && Val(value, c[k]) != -1
      requires Val(value, store[watch[litFalse][i]][1 - w]) != 1
      modifies `store, `watch
      ensures litFalse in watch && i <= |watch[litFalse]| == |old(watch)[litFalse]| - 1 && |store| == |old(store)|
      ensures Busy(pending, head, litFalse, watch[litFalse][i..]) && Evolves(cc, old(store), store)
    {
      hide Inv;
      hide InvBelow;
      hide OrderOk;
      hide Conflicted;
      hide SkipOk;
      hide ScoringOk;
      hide OrdersOk;
      hide OrdersOkBut;
      hide UpStep;
      hide AllClear;
      hide TrailOk;
      hide ListShape;
      hide StoreShape;
      hide Filed;
      hide StoreSound;
      hide RootSound;
      hide Entails;
      hide RootsKept;
      hide Todo;
      hide LearnedOk;
      hide Satisfiable;
      hide Evolves;
      hide Swap;
      hide Refile;
      ghost var s, todo := St(), Todo(pending, trail, head);
      BusyFacts(base, s, todo, litFalse, watch[litFalse][i..]);
      var id := watch[litFalse][i];
      EntryFacts(vc, cc, store, watch, litFalse, i);
      var c := store[id];
      MovedVisit(base, s, todo, -1, litFalse, id, w, k, i);
      EvolvesSwap(cc, store, id, w, k);
      RefileSteps(watch, litFalse, i, c[k]);
      watch := watch[c[k] := watch[c[k]] + [id]];
      watch := watch[litFalse := SwapPop(watch[litFalse], i)];
      store := store[id := Swap(c, w, k)];
    }

    /** No watch can be moved: the other watched literal is implied, or the clause is falsified. */
    method ImplyOther(litFalse: int, i: nat, w: nat, ghost head: nat, ghost pending: set<int>) returns (ok: bool)
      requires dLevel >= 1 && litFalse in watch && i < |watch[litFalse]| && Busy(pending, head, litFalse, watch[litFalse][i..])
      requires LitOk(vc, litFalse) && Val(value, litFalse) == -1 && Lev(level, litFalse) == dLevel
      requires w <= 1 && Watched(cc, store, watch[litFalse][i]) && store[watch[litFalse][i]][w] == litFalse
      requires var c := store[watch[litFalse][i]];
        LitOk(vc, c[1 - w]) && Val(value, c[1 - w]) != 1 && forall k :: 2 <= k < |c| ==> Val(value, c[k]) == -1
      modifies `trail, `value, `level, `ante, `mark, `activity, `varOrder, `varPosition, `moved, `nextVar, `store,
               `watch, `aLevel, `learned, `slot, `nConflicts
      ensures ok ==> watch == old(watch) && Busy(pending, head, litFalse, watch[litFalse][i + 1..]) && old(trail) <= trail
      ensures ok ==> Val(value, litFalse) == -1 && Lev(level, litFalse) == dLevel
      ensures !ok ==> Conflicted()
      ensures UpStep(old(store), imp, old(trail), trail, ok) && (ok ==> Books() == old(Books()))
      ensures Evolves(cc, old(store), store) && RootsKept(old(level), old(trail), level, trail)
    {
      hide Inv;
      hide InvBelow;
      hide OrderOk;
      hide Conflicted;
      hide Books;
      hide SkipOk;
      hide ScoringOk;
      hide OrdersOk;
      hide OrdersOkBut;
      hide UpStep;
      hide AllClear;
      hide TrailOk;
      hide ListShape;
      hide StoreShape;
      hide Filed;
      hide StoreSound;
      hide RootSound;
      hide Entails;
      hide RootsKept;
      hide Todo;
      hide LearnedOk;
      hide Satisfiable;
      hide Evolves;
      hide Swap;
      var c := store[watch[litFalse][i]];
      BusyFacts(base, St(), Todo(pending, trail, head), litFalse, watch[litFalse][i..]);
      ok := Val(value, c[1 - w]) == 0;
      if ok {
        ImplyWatch(litFalse, i, w, head, pending);
      } else {
        Falsified(litFalse, i, w, head, pending);
      }
    }

    /** The other watched literal is implied; it moves to the front of its clause. */
    method ImplyWatch(litFalse: int, i: nat, w: nat, ghost head: nat, ghost pending: set<int>)
      requires dLevel >= 1 && litFalse in watch && i < |watch[litFalse]| && Busy(pending, head, litFalse, watch[litFalse][i..])
      requires LitOk(vc, litFalse) && Val(value, litFalse) == -1 && Lev(level, litFalse) == dLevel
      requires w <= 1 && Watched(cc, store, watch[litFalse][i]) && store[watch[litFalse][i]][w] == litFalse
      requires var c := store[watch[litFalse][i]];
        LitOk(vc, c[1 - w]) && Val(value, c[1 - w]) == 0 && forall k :: 2 <= k < |c| ==> Val(value, c[k]) == -1
      modifies `trail, `value, `level, `ante, `store
      ensures Busy(pending, head, litFalse, watch[litFalse][i + 1..]) && old(trail) <= trail && Books() == old(Books())
      ensures Val(value, litFalse) == -1 && Lev(level, litFalse) == dLevel
      ensures UpStep(old(store), imp, old(trail), trail, true)
      ensures Evolves(cc, old(store), store) && RootsKept(old(level), old(trail), level, trail)
    {
      hide Inv;
      hide InvBelow;
      hide OrderOk;
      hide SkipOk;
      hide ScoringOk;
      hide OrdersOk;
      hide OrdersOkBut;
      hide UpStep;
      hide AllClear;
      hide TrailOk;
      hide ListShape;
      hide StoreShape;
      hide Filed;
      hide StoreSound;
      hide RootSound;
      hide Entails;
      hide RootsKept;
      hide Todo;
      hide LearnedOk;
      hide Satisfiable;
      hide Evolves;
      hide Swap;
      ghost var s, todo, rest := St(), Todo(pending, trail, head), watch[litFalse][i..];
      BusyFacts(base, s, todo, litFalse, rest);
      TrailFacts(vc, value, level, trail, dLevel);
      var id := watch[litFalse][i];
      var c := store[id];
      EntryFacts(vc, cc, store, watch, litFalse, i);
      VisitImplied(s, id, w);
      ImpliedVisit(base, s, todo, -1, litFalse, rest, w);
      RootsSame(level, trail);
      RootsPlaced(level, trail, value, level, trail, c[1 - w], dLevel);
      TodoPlaced(pending, trail, head, c[1 - w]);
      PlaceKeepsTrue(value, level, c[1 - w], dLevel);
      OrdersWider(VarOf(c[1 - w]));
      Imply(c[1 - w], id, w);
      assert rest[1..] == watch[litFalse][i + 1..];
    }

    /** Literal l is set by clause id, in which it comes to the front. */
    method Imply(l: int, id: nat, w: nat)
      requires w <= 1 && Watched(cc, store, id) && LitOk(vc, l) && |value| == |level| == |ante| == vc + 1 && Val(value, l) >= 0
      requires OrdersOkBut(VarOf(l))
      modifies `trail, `value, `level, `ante, `store
      ensures St() == Place(old(St()).(store := store), l, Stored(id)) && OrdersOk() && Evolves(cc, old(store), store)
      ensures store == old(store)[id := if w == 0 then Swap(old(store)[id], 0, 1) else old(store)[id]]
      ensures Books() == old(Books())
    {
      hide OrdersOk;
      hide OrdersOkBut;
      hide Evolves;
      hide Swap;
      Push(l, Stored(id));
      ToFront(id, w);
    }

    /** The implied literal, watched at position 1 - w, comes first. */
    method ToFront(id: nat, w: nat)
      requires w <= 1 && Watched(cc, store, id)
      modifies `store
      ensures store == old(store)[id := if w == 0 then Swap(old(store)[id], 0, 1) else old(store)[id]] && Evolves(cc, old(store), store)
    {
      hide Evolves;
      if w == 0 {
        EvolvesSwap(cc, store, id, 0, 1);
        store := store[id := Swap(store[id], 0, 1)];
      } else {
        EvolvesAdded(cc, store, store);
      }
    }

    /** All literals of a watched clause are false. */
    method Falsified(litFalse: int, i: nat, w: nat, ghost head: nat, ghost pending: set<int>)
      requires dLevel >= 1 && litFalse in watch && i < |watch[litFalse]| && Busy(pending, head, litFalse, watch[litFalse][i..])
      requires LitOk(vc, litFalse) && Val(value, litFalse) == -1 && Lev(level, litFalse) == dLevel
      requires w <= 1 && Watched(cc, store, watch[litFalse][i]) && store[watch[litFalse][i]][w] == litFalse
      requires var c := store[watch[litFalse][i]];
        LitOk(vc, c[1 - w]) && Val(value, c[1 - w]) == -1 && forall k :: 2 <= k < |c| ==> Val(value, c[k]) == -1
      modifies `trail, `value, `mark, `activity, `varOrder, `varPosition, `moved, `nextVar, `store, `watch, `aLevel,
               `learned, `nConflicts
      ensures UpStep(old(store), imp, old(trail), trail, false) && nConflicts == old(nConflicts) + 1
      ensures Conflicted() && Evolves(cc, old(store), store) && RootsKept(level, old(trail), level, trail)
      ensures LearnsAt(old(St()), slot, old(store)[old(watch)[litFalse][i]], old(Rank()), old(nextVar), St(), Rank(), nextVar, aLevel, learned)
    {
      hide LearnsAt;
      hide Inv;
      hide InvBelow;
      hide OrderOk;
      hide Conflicted;
      hide SkipOk;
      hide ScoringOk;
      hide OrdersOk;
      hide OrdersOkBut;
      hide UpStep;
      hide AllClear;
      hide TrailOk;
      hide ListShape;
      hide StoreShape;
      hide Filed;
      hide StoreSound;
      hide RootSound;
      hide Entails;
      hide RootsKept;
      hide Todo;
      hide LearnedOk;
      hide Satisfiable;
      hide Evolves;
      ghost var s := St();
      var id := watch[litFalse][i];
      var c := store[id];
      BusyFacts(base, s, Todo(pending, trail, head), litFalse, watch[litFalse][i..]);
      EntryFacts(vc, cc, store, watch, litFalse, i);
      VisitRefuted(s, id, w, []);
      ClauseConflict(base, St(), Todo(pending, trail, head), litFalse, watch[litFalse][i..], w);
      assert Lev(level, c[w]) == dLevel;
      nConflicts := nConflicts + 1;
      LearnClause(c);
      UpFail(s.store, imp, s.trail, [], trail);
      EvolvesAdded(cc, old(store), store);
    }

    /** The watch list of the false literal litFalse. */
    method PropagateWatches(litFalse: int, ghost head: nat, ghost pending: set<int>) returns (ok: bool)
      requires dLevel >= 1 && litFalse in watch && Busy(pending, head, litFalse, watch[litFalse])
      requires LitOk(vc, litFalse) && Val(value, litFalse) == -1 && Lev(level, litFalse) == dLevel
      modifies `trail, `value, `level, `ante, `mark, `activity, `varOrder, `varPosition, `moved, `nextVar, `store,
               `watch, `aLevel, `learned, `slot, `nConflicts
      ensures ok ==> Busy(pending, head, 0, []) && old(trail) <= trail
      ensures !ok ==> Conflicted()
      ensures UpStep(old(store), imp, old(trail), trail, ok) && (ok ==> Books() == old(Books()))
      ensures Evolves(cc, old(store), store) && RootsKept(old(level), old(trail), level, trail)
    {
      hide Inv;
      hide InvBelow;
      hide OrderOk;
      hide Conflicted;
      hide SkipOk;
      hide ScoringOk;
      hide OrdersOk;
      hide OrdersOkBut;
      hide UpStep;
      hide AllClear;
      hide TrailOk;
      hide ListShape;
      hide StoreShape;
      hide Filed;
      hide StoreSound;
      hide RootSound;
      hide Entails;
      hide RootsKept;
      hide Todo;
      hide LearnedOk;
      hide Satisfiable;
      hide Evolves;
      var i: nat := 0;
      assert watch[litFalse][0..] == watch[litFalse];
      RootsSame(level, trail);
      EvolvesAdded(cc, store, store);
      UpNone(store, imp, trail);
      ok := true;
      while i < |watch[litFalse]|
        invariant litFalse in watch && i <= |watch[litFalse]| && Busy(pending, head, litFalse, watch[litFalse][i..])
        invariant Val(value, litFalse) == -1 && Lev(level, litFalse) == dLevel && old(trail) <= trail
        invariant Evolves(cc, old(store), store) && RootsKept(old(level), old(trail), level, trail)
        invariant UpStep(old(store), imp, old(trail), trail, true) && Books() == old(Books())
        decreases |watch[litFalse]| - i
      {
        ghost var level1, trail1, store1 := level, trail, store;
        ok, i := VisitClause(litFalse, i, head, pending);
        RootsTransitive(old(level), old(trail), level1, trail1, level, trail);
        EvolvesTransitive(cc, old(store), store1, store);
        UpChain(cc, old(store), store1, imp, old(trail), trail1, trail, ok);
        if !ok {
          return;
        }
      }
      assert watch[litFalse][i..] == [];
      WatchStageDone(base, St(), Todo(pending, trail, head), litFalse);
    }

    /** assertLiteral: places l and draws all consequences. */
    method AssertLiteral(l: int, a: Ante, ghost pending: set<int>) returns (ok: bool)
      requires LitOk(vc, l) && |value| == |level| == |ante| == vc + 1 && dLevel >= 1 && Val(value, l) >= 0
      requires Inv(base, Place(St(), l, a), pending + {l}, -1, 0, []) && AllClear(vc, mark)
      requires OrdersOkBut(VarOf(l))
      modifies `trail, `value, `level, `ante, `mark, `activity, `varOrder, `varPosition, `moved, `nextVar, `store,
               `watch, `aLevel, `learned, `slot, `nConflicts
      ensures ok ==> Inv(base, St(), pending, -1, 0, []) && OrdersOk() && AllClear(vc, mark) && old(trail) + [l] <= trail
      ensures !ok ==> Conflicted()
      ensures UpStep(old(store), imp, old(trail) + [l], trail, ok) && (ok ==> Books() == old(Books()))
      ensures Evolves(cc, old(store), store)
      ensures RootsKept(old(Place(St(), l, a).level), old(trail) + [l], level, trail)
    {
      hide Inv;
      hide InvBelow;
      hide OrderOk;
      hide Conflicted;
      hide SkipOk;
      hide ScoringOk;
      hide OrdersOk;
      hide OrdersOkBut;
      hide UpStep;
      hide AllClear;
      hide TrailOk;
      hide ListShape;
      hide StoreShape;
      hide Filed;
      hide StoreSound;
      hide RootSound;
      hide Entails;
      hide RootsKept;
      hide Todo;
      hide LearnedOk;
      hide Satisfiable;
      hide Evolves;
      var head := |trail|;
      ghost var s0 := Place(St(), l, a);
      Begin(l, a, pending);
      hide Busy;
      RootsSame(level, trail);
      EvolvesAdded(cc, store, store);
      UpNone(store, imp, trail);
      while head < |trail|
        invariant Busy(pending, head, 0, []) && head <= |trail| && s0.trail <= trail
        invariant Evolves(cc, old(store), store) && RootsKept(s0.level, s0.trail, level, trail)
        invariant UpStep(old(store), imp, s0.trail, trail, true) && Books() == old(Books())
        decreases vc - head
      {
        BusyBound(pending, head);
        ghost var level1, trail1, store1 := level, trail, store;
        ok := ProcessHead(head, pending);
        RootsTransitive(s0.level, s0.trail, level1, trail1, level, trail);
        EvolvesTransitive(cc, old(store), store1, store);
        UpChain(cc, old(store), store1, imp, s0.trail, trail1, trail, ok);
        if !ok {
          return;
        }
        head := head + 1;
        BusyBound(pending, head);
      }
      BusyDone(pending);
      ok := true;
    }

    /** The first literal of a propagation is pushed. */
    method Begin(l: int, a: Ante, ghost pending: set<int>)
      requires LitOk(vc, l) && |value| == |level| == |ante| == vc + 1 && dLevel >= 1 && Val(value, l) >= 0
      requires Inv(base, Place(St(), l, a), pending + {l}, -1, 0, []) && AllClear(vc, mark) && OrdersOkBut(VarOf(l))
      modifies `value, `level, `ante, `trail
      ensures St() == Place(old(St()), l, a) && Busy(pending, |old(trail)|, 0, [])
    {
      hide Inv;
      hide AllClear;
      hide OrdersOk;
      hide OrdersOkBut;
      hide Todo;
      assert (trail + [l])[|trail|..] == [l];
      TodoOne(pending, trail, l);
      Push(l, a);
    }

    /** One turn of the propagation loop. */
    method ProcessHead(head: nat, ghost pending: set<int>) returns (ok: bool)
      requires dLevel >= 1 && head < |trail| && Busy(pending, head, 0, [])
      modifies `trail, `value, `level, `ante, `mark, `activity, `varOrder, `varPosition, `moved, `nextVar, `store,
               `watch, `aLevel, `learned, `slot, `nConflicts
      ensures ok ==> Busy(pending, head + 1, 0, []) && old(trail) <= trail
      ensures !ok ==> Conflicted()
      ensures UpStep(old(store), imp, old(trail), trail, ok) && (ok ==> Books() == old(Books()))
      ensures Evolves(cc, old(store), store) && RootsKept(old(level), old(trail), level, trail)
    {
      hide Inv;
      hide InvBelow;
      hide OrderOk;
      hide Conflicted;
      hide SkipOk;
      hide ScoringOk;
      hide OrdersOk;
      hide OrdersOkBut;
      hide UpStep;
      hide AllClear;
      hide TrailOk;
      hide ListShape;
      hide StoreShape;
      hide Filed;
      hide StoreSound;
      hide RootSound;
      hide Entails;
      hide RootsKept;
      hide Todo;
      hide LearnedOk;
      hide Satisfiable;
      hide Evolves;
      hide BinaryListTrue;
      HeadFacts(base, St(), pending, head);
      var p := trail[head];
      ok := PropagateBinaries(head, pending);
      EvolvesAdded(cc, old(store), store);
      if !ok {
        return;
      }
      HeadFacts(base, St(), pending, head);
      HeadBinariesDone(base, St(), pending, head);
      ghost var level1, trail1, store1 := level, trail, store;
      ok := PropagateWatches(-p, head + 1, pending);
      RootsTransitive(old(level), old(trail), level1, trail1, level, trail);
      EvolvesTransitive(cc, old(store), store1, store);
      UpChain(cc, old(store), store1, imp, old(trail), trail1, trail, ok);
    }

    // ------------------------------------------------- decisions and conflicts

    /** All consequences have been drawn, without conflict. */
    ghost predicate Ready()
      reads `base, `cc, `store, `imp, `watch, `value, `level, `ante, `trail, `dLevel, `mark
      reads `varOrder, `varPosition, `ordered, `nextVar, `skipped, `moved, `slot, `activity, `phase
    {
      dLevel >= 1 && Inv(base, St(), {}, -1, 0, []) && OrdersOk() && AllClear(vc, mark)
    }

    /** backtrack: undoes the assignments above level b. */
    method Backtrack(b: nat, ghost except: int)
      requires InvBelow(base, St(), b, except) && OrdersOk()
      modifies `trail, `value, `nextVar, `dLevel, `phase
      ensures dLevel == b && Inv(base, St(), {}, except, 0, []) && OrdersOk()
      ensures Rewound(old(value), level, value, b) && (b >= 1 ==> RootsKept(level, old(trail), level, trail))
      ensures (trail, phase, nextVar) == Unstacked(level, old(dLevel), b, varPosition, old(trail), old(phase), old(nextVar))
    {
      hide Unstacked;
      hide Inv;
      hide InvBelow;
      hide OrderOk;
      hide SkipOk;
      hide ScoringOk;
      hide OrdersOk;
      hide OrdersOkBut;
      hide UpStep;
      hide AllClear;
      hide TrailOk;
      hide ListShape;
      hide StoreShape;
      hide Filed;
      hide StoreSound;
      hide RootSound;
      hide Entails;
      hide RootsKept;
      hide Todo;
      hide LearnedOk;
      hide Satisfiable;
      hide Evolves;
      hide Rewound;
      ghost var s0, phase0, next0 := St(), phase, nextVar;
      RootsSame(level, trail);
      TrailHolds(base, St(), b, except);
      while trail != [] && Lev(level, trail[|trail| - 1]) > b
        invariant InvBelow(base, St(), b, except) && OrdersOk() && dLevel == s0.dLevel
        invariant trail <= s0.trail && forall i :: |trail| <= i < |s0.trail| ==> Lev(level, s0.trail[i]) > b
        invariant b >= 1 ==> RootsKept(level, s0.trail, level, trail)
        invariant Unstacked(level, dLevel, b, varPosition, trail, phase, nextVar) == Unstacked(level, dLevel, b, varPosition, s0.trail, phase0, next0)
      {
        BackPop(b, except, s0.trail);
      }
      UnstackedEnd(level, dLevel, b, varPosition, trail, phase, nextVar);
      TrailHolds(base, St(), b, except);
      RewoundBy(s0, trail, value, b);
      Unwound(base, St(), b, except);
      dLevel := b;
    }

    method BackPop(ghost b: nat, ghost except: int, ghost trail0: seq<int>)
      requires InvBelow(base, St(), b, except) && OrdersOk() && trail != [] && Lev(level, trail[|trail| - 1]) > b
      modifies `trail, `value, `nextVar, `phase
      ensures InvBelow(base, St(), b, except) && OrdersOk() && trail == old(trail)[..|old(trail)| - 1]
      ensures b >= 1 && RootsKept(level, trail0, level, old(trail)) ==> RootsKept(level, trail0, level, trail)
      ensures Unstacked(level, dLevel, b, varPosition, trail, phase, nextVar)
        == Unstacked(level, dLevel, b, varPosition, old(trail), old(phase), old(nextVar))
    {
      hide Unstacked;
      hide Remembered;
      hide Lowered;
      hide Inv;
      hide InvBelow;
      hide OrderOk;
      hide SkipOk;
      hide ScoringOk;
      hide UpStep;
      hide OrdersOk;
      hide OrdersOkBut;
      hide AllClear;
      hide TrailOk;
      hide ListShape;
      hide StoreShape;
      hide Filed;
      hide StoreSound;
      hide RootSound;
      hide Entails;
      hide RootsKept;
      hide Todo;
      hide LearnedOk;
      hide Satisfiable;
      hide Evolves;
      TrailHolds(base, St(), b, except);
      PopKeeps(base, St(), b, except);
      if b >= 1 {
        RootsPopped(level, trail);
        if RootsKept(level, trail0, level, trail) {
          RootsTransitive(level, trail0, level, trail, level, trail[..|trail| - 1]);
        }
      }
      UnstackedStep(level, dLevel, b, varPosition, trail, phase, nextVar);
      DropTop();
    }

    /** The top literal is taken off: its sign is remembered, its variable becomes free. */
    method DropTop()
      requires OrdersOk() && TrailOk(vc, value, level, trail, dLevel) && |value| == |level| == vc + 1 && trail != []
      modifies `trail, `value, `nextVar, `phase
      ensures OrdersOk() && trail == old(trail)[..|old(trail)| - 1]
      ensures VarOf(old(trail)[|old(trail)| - 1]) <= vc && value == old(value)[VarOf(old(trail)[|old(trail)| - 1]) := 0]
      ensures phase == Remembered(level, dLevel, old(phase), old(trail)[|old(trail)| - 1])
      ensures nextVar == Lowered(varPosition, old(nextVar), VarOf(old(trail)[|old(trail)| - 1]))
    {
      hide OrdersOk;
      hide OrdersOkBut;
      hide Lowered;
      hide OrderOk;
      hide SkipOk;
      hide ScoringOk;
      OrdersOpen();
      TopSigned(St());
      hide TrailOk;
      var v := VarOf(trail[|trail| - 1]);
      ghost var l, phase0 := trail[|trail| - 1], phase;
      SavePhase(v);
      assert phase == Remembered(level, dLevel, phase0, l);
      trail := trail[..|trail| - 1];
      Free(v);
      LowerNextVar(v);
    }

    /** decide: opens a level with literal l. */
    method Decide(l: int) returns (ok: bool)
      requires dLevel >= 1 && Inv(base, St(), {}, -1, 0, []) && AllClear(vc, mark) && LitOk(vc, l) && Val(value, l) == 0
      requires OrdersOkBut(VarOf(l))
      modifies `trail, `value, `level, `ante, `mark, `activity, `varOrder, `varPosition, `moved, `nextVar, `store,
               `watch, `aLevel, `learned, `slot, `nConflicts, `dLevel
      ensures UpStep(old(store), imp, old(trail) + [l], trail, ok) && (ok ==> Books() == old(Books()) && old(trail) + [l] <= trail)
      ensures dLevel == old(dLevel) + 1 && (ok ==> Ready()) && (!ok ==> Conflicted())
      ensures Evolves(cc, old(store), store) && RootsKept(old(level), old(trail), level, trail)
    {
      hide Inv;
      hide InvBelow;
      hide OrderOk;
      hide Conflicted;
      hide SkipOk;
      hide ScoringOk;
      hide OrdersOk;
      hide OrdersOkBut;
      hide UpStep;
      hide AllClear;
      hide TrailOk;
      hide ListShape;
      hide StoreShape;
      hide Filed;
      hide StoreSound;
      hide RootSound;
      hide Entails;
      hide RootsKept;
      hide Todo;
      hide LearnedOk;
      hide Satisfiable;
      hide Evolves;
      hide AnteFits;
      BusyFacts(base, St(), {}, 0, []);
      TrailFacts(vc, value, level, trail, dLevel);
      ghost var level0, trail0 := level, trail;
      RootsSame(level, trail);
      RootsPlaced(level, trail, value, level, trail, l, dLevel + 1);
      DecisionFits(base, St(), l);
      dLevel := dLevel + 1;
      assert {} + {l} == {l};
      ghost var level1, trail1 := Place(St(), l, Decided).level, trail + [l];
      ok := AssertLiteral(l, Decided, {});
      RootsTransitive(level0, trail0, level1, trail1, level, trail);
    }

    /** assertCL: asserts the first literal of the learned clause. */
    method AssertCL() returns (ok: bool)
      requires dLevel >= 1 && OrdersOk() && AllClear(vc, mark) && Rejoined(base, St(), learned)
      modifies `trail, `value, `level, `ante, `mark, `activity, `varOrder, `varPosition, `moved, `nextVar, `store,
               `watch, `aLevel, `learned, `slot, `nConflicts
      ensures (ok ==> Ready()) && (!ok ==> Conflicted())
      ensures Evolves(cc, old(store), store) && RootsKept(old(level), old(trail), level, trail)
      ensures ok ==> Books() == old(Books())
    {
      hide Inv;
      hide InvBelow;
      hide OrderOk;
      hide Conflicted;
      hide SkipOk;
      hide ScoringOk;
      hide OrdersOk;
      hide OrdersOkBut;
      hide UpStep;
      hide AllClear;
      hide TrailOk;
      hide ListShape;
      hide StoreShape;
      hide Filed;
      hide StoreSound;
      hide RootSound;
      hide Entails;
      hide RootsKept;
      hide Todo;
      hide LearnedOk;
      hide Satisfiable;
      hide Evolves;
      hide Rejoined;
      hide Asserting;
      RejoinedFacts(base, St(), learned);
      ghost var level0, trail0 := level, trail;
      RootsSame(level, trail);
      match learned {
        case Unit(u) =>
          RootsPlaced(level, trail, value, level, trail, u, dLevel);
          ghost var level1, trail1 := Place(St(), u, Root).level, trail + [u];
          OrdersWider(VarOf(u));
          ok := AssertLiteral(u, Root, {});
          RootsTransitive(level0, trail0, level1, trail1, level, trail);
        case Clause(id) =>
          var u := store[id][0];
          RootsPlaced(level, trail, value, level, trail, u, dLevel);
          ghost var level1, trail1 := Place(St(), u, Stored(id)).level, trail + [u];
          OrdersWider(VarOf(u));
          ok := AssertLiteral(u, Stored(id), {});
          RootsTransitive(level0, trail0, level1, trail1, level, trail);
      }
    }

    /** The conflict loop of run: backjumps, or restarts, and asserts learned clauses until one causes no conflict. */
    method HandleConflict() returns (unsat: bool)
      requires dLevel >= 1 && Conflicted() && -1 <= nextClause < |store| - cc
      modifies `trail, `value, `level, `ante, `mark, `activity, `varOrder, `varPosition, `moved, `nextVar,
               `nextClause, `store, `watch, `aLevel, `learned, `slot, `nConflicts, `dLevel, `phase, `nextDecay
      ensures if unsat then !Satisfiable(base) else Ready() && -1 <= nextClause == |store| - cc - 1
      ensures Evolves(cc, old(store), store) && RootsKept(old(level), old(trail), level, trail)
    {
      hide Inv;
      hide InvBelow;
      hide OrderOk;
      hide SkipOk;
      hide ScoringOk;
      hide OrdersOk;
      hide OrdersOkBut;
      hide UpStep;
      hide AllClear;
      hide TrailOk;
      hide ListShape;
      hide StoreShape;
      hide Filed;
      hide StoreSound;
      hide RootSound;
      hide Entails;
      hide RootsKept;
      hide Todo;
      hide LearnedOk;
      hide Satisfiable;
      hide Evolves;
      RootsSame(level, trail);
      EvolvesAdded(cc, store, store);
      while true
        invariant dLevel >= 1 && Conflicted() && -1 <= nextClause < |store| - cc
        invariant Evolves(cc, old(store), store) && RootsKept(old(level), old(trail), level, trail)
        decreases dLevel
      {
        if dLevel >= 2 {
          LearnedLevel(base, St(), aLevel, learned);
        }
        if aLevel == 0 {
          return true;
        }
        ghost var level1, trail1, store1 := level, trail, store;
        var ok := Backjump();
        RootsTransitive(old(level), old(trail), level1, trail1, level, trail);
        EvolvesTransitive(cc, old(store), store1, store);
        if ok {
          return false;
        }
      }
    }

    lemma ConflictedOpen()
      requires dLevel >= 2 && Conflicted()
      ensures OrdersOk() && AllClear(vc, mark) && LearnedOk(base, St(), aLevel, learned)
    {
      hide OrdersOk;
      hide AllClear;
      hide LearnedOk;
    }

    lemma ReadyAgain()
      requires dLevel >= 1 && Inv(base, St(), {}, -1, 0, []) && OrdersOk() && AllClear(vc, mark)
      ensures Ready()
    {
      hide Inv;
      hide OrdersOk;
      hide AllClear;
    }

    method DecayIfDue()
      requires OrdersOk()
      modifies `activity, `nextDecay
      ensures OrdersOk()
      ensures if nConflicts == old(nextDecay) then activity == Halved(old(activity)) && nextDecay == old(nextDecay) + HALFLIFE
              else activity == old(activity) && nextDecay == old(nextDecay)
    {
      hide OrdersOk;
      if nConflicts == nextDecay {
        nextDecay := nextDecay + HALFLIFE;
        ScoreDecay();
      }
    }

    /** scoreDecay: halves the scores of all literals. */
    method ScoreDecay()
      requires OrdersOk()
      modifies `activity
      ensures OrdersOk() && activity == Halved(old(activity))
    {
      ScoringSizes(vc, imp, slot, activity, phase, moved);
      ghost var activity0 := activity;
      for v := 1 to vc + 1
        invariant |activity| == vc + 1 && (forall u :: 0 <= u < v ==> activity[u] == Halved(activity0)[u])
        invariant forall u :: v <= u <= vc ==> activity[u] == activity0[u]
      {
        activity := activity[v := Activity(activity[v].neg / 2, activity[v].pos / 2)];
      }
      assert activity == Halved(activity0);
      ScoringKept(vc, imp, slot, activity0, phase, moved, activity, phase, moved);
    }

    /** Backtracks to the assertion level, or restarts at level 1, and asserts the learned clause if that is its level. */
    method Backjump() returns (ok: bool)
      requires dLevel >= 2 && Conflicted() && 1 <= aLevel < dLevel
      modifies `trail, `value, `level, `ante, `mark, `activity, `varOrder, `varPosition, `moved, `nextVar,
               `nextClause, `store, `watch, `aLevel, `learned, `slot, `nConflicts, `dLevel, `phase, `nextDecay
      ensures if ok then Ready() else Conflicted() && 1 <= dLevel < old(dLevel)
      ensures -1 <= nextClause < |store| - cc
      ensures Evolves(cc, old(store), store) && RootsKept(old(level), old(trail), level, trail)
      ensures nextClause == |old(store)| - cc - 1
      ensures nextDecay == if old(nConflicts) == old(nextDecay) then old(nextDecay) + HALFLIFE else old(nextDecay)
      ensures ok ==> varOrder == old(varOrder) && varPosition == old(varPosition) && slot == old(slot) && |store| == |old(store)|
      ensures ok ==> activity == if old(nConflicts) == old(nextDecay) then Halved(old(activity)) else old(activity)
      ensures ok ==> ReturnedTo(old(level), old(dLevel), old(aLevel), varPosition, old(trail), old(phase), old(nextVar), phase, nextVar)
    {
      hide Inv;
      hide InvBelow;
      hide OrderOk;
      hide SkipOk;
      hide Conflicted;
      hide Ready;
      hide ScoringOk;
      hide OrdersOk;
      hide OrdersOkBut;
      hide UpStep;
      hide AllClear;
      hide TrailOk;
      hide ListShape;
      hide StoreShape;
      hide Filed;
      hide StoreSound;
      hide RootSound;
      hide Entails;
      hide RootsKept;
      hide Todo;
      hide LearnedOk;
      hide Satisfiable;
      hide Evolves;
      hide Rejoined;
      hide Rewound;
      ConflictedOpen();
      DecayIfDue();
      nextClause := |store| - cc - 1;
      ok := JumpBack();
    }

    method JumpBack() returns (ok: bool)
      requires dLevel >= 2 && OrdersOk() && AllClear(vc, mark) && LearnedOk(base, St(), aLevel, learned) && nextClause == |store| - cc - 1
      requires 1 <= aLevel < dLevel
      modifies `trail, `value, `level, `ante, `mark, `activity, `varOrder, `varPosition, `moved, `nextVar, `store,
               `watch, `aLevel, `learned, `slot, `nConflicts, `dLevel, `phase
      ensures if ok then Ready() else Conflicted() && 1 <= dLevel < old(dLevel)
      ensures -1 <= nextClause < |store| - cc
      ensures Evolves(cc, old(store), store) && RootsKept(old(level), old(trail), level, trail)
      ensures ok ==> Rank() == old(Rank()) && moved == old(moved) && slot == old(slot) && nConflicts == old(nConflicts) && |store| == |old(store)|
      ensures ok ==> ReturnedTo(old(level), old(dLevel), old(aLevel), varPosition, old(trail), old(phase), old(nextVar), phase, nextVar)
    {
      hide Unstacked;
      hide Inv;
      hide InvBelow;
      hide OrderOk;
      hide SkipOk;
      hide Conflicted;
      hide Ready;
      hide ScoringOk;
      hide OrdersOk;
      hide OrdersOkBut;
      hide UpStep;
      hide AllClear;
      hide TrailOk;
      hide ListShape;
      hide StoreShape;
      hide Filed;
      hide StoreSound;
      hide RootSound;
      hide Entails;
      hide RootsKept;
      hide Todo;
      hide LearnedOk;
      hide Satisfiable;
      hide Evolves;
      hide Rejoined;
      hide Rewound;
      EvolvesAdded(cc, store, store);
      var restart: bool := *;
      ghost var s0 := St();
      var b := if restart then 1 else aLevel;
      LearnedBelow(base, s0, aLevel, learned, b);
      ghost var phase0, next0 := phase, nextVar;
      Backtrack(b, Except(learned));
      assert (phase, nextVar) == Returned(s0.level, s0.dLevel, b, varPosition, s0.trail, phase0, next0);
      if restart && dLevel != aLevel {
        Restarted(base, s0, St(), aLevel, learned);
        ReadyAgain();
        return true;
      }
      Rejoin(base, s0, St(), aLevel, learned);
      ghost var level1, trail1 := level, trail;
      ok := AssertCL();
      StoreSize(cc, s0.store, store);
      RootsTransitive(s0.level, s0.trail, level1, trail1, level, trail);
    }

    // ---------------------------------------------------- choosing a literal

    /** selectLiteral__conflict: looks through up to 257 added clauses from nextClause down for an unsatisfied one, and takes its free
        variable of the highest score. */
    method SelectFromConflict() returns (x: int)
      requires Ready() && -1 <= nextClause < |store| - cc
      modifies `nextClause
      ensures x != 0 ==> LitOk(vc, x) && Val(value, x) == 0
      ensures -1 <= nextClause < |store| - cc && (old(nextClause) == -1 ==> x == 0 && nextClause == -1)
      ensures Picked(cc, store, activity, phase, value, old(nextClause), nextClause, x)
    {
      hide Inv;
      hide InvBelow;
      hide OrderOk;
      hide SkipOk;
      hide ScoringOk;
      hide OrdersOk;
      hide OrdersOkBut;
      hide UpStep;
      hide AllClear;
      hide TrailOk;
      hide ListShape;
      hide StoreShape;
      hide Filed;
      hide StoreSound;
      hide RootSound;
      hide Entails;
      hide RootsKept;
      hide Todo;
      hide LearnedOk;
      hide Satisfiable;
      hide Evolves;
      hide Picked;
      hide OpenTwice;
      BusyFacts(base, St(), {}, 0, []);
      PropagationComplete(base, St());
      var last := WindowStart(nextClause);
      var i := nextClause;
      while i >= last
        invariant last - 1 <= i < |store| - cc && -1 <= nextClause < |store| - cc && (old(nextClause) == -1 ==> i == nextClause == -1)
        invariant i <= old(nextClause) && AllSatisfied(cc, store, value, i + 1, old(nextClause) + 1)
        invariant nextClause == if i == old(nextClause) then i else i + 1
        decreases i - last + 1
      {
        nextClause := i;
        var c := store[cc + i];
        if exists k :: 0 <= k < |c| && Val(value, c[k]) == 1 {
          i := i - 1;
        } else {
          AddedOpen(vc, cc, store, value, cc + i);
          OrdersOpen();
          var v := BestFree(c);
          x := Signed(activity, phase, v);
          PickedOne(cc, store, activity, phase, value, old(nextClause), i, x);
          return;
        }
      }
      PickedNone(cc, store, activity, phase, value, old(nextClause));
      x := 0;
    }

    /** The first free variable of c of the highest score. */
    method BestFree(c: seq<int>) returns (v: nat)
      requires exists k :: 0 <= k < |c| && Val(value, c[k]) == 0
      ensures exists k: nat :: BestAt(activity, value, c, k) && VarOf(c[k]) == v
    {
      hide ScoreOf;
      var score: int := -1;
      v := 0;
      ghost var at: nat := 0;
      for k := 0 to |c|
        invariant score == -1 ==> forall j :: 0 <= j < k ==> Val(value, c[j]) != 0
        invariant score >= 0 ==> at < k && v == VarOf(c[at]) && score == ScoreOf(activity, v) && BestAt(activity, value, c[..k], at)
        invariant score >= -1
      {
        assert forall j :: 0 <= j < k ==> c[..k + 1][j] == c[..k][j];
        if Val(value, c[k]) == 0 && ScoreOf(activity, VarOf(c[k])) > score {
          v := VarOf(c[k]);
          score := ScoreOf(activity, v);
          at := k;
        }
      }
      assert c[..|c|] == c;
    }

    /** selectLiteral__vsids: the first free variable of the order from nextVar on. */
    method SelectByOrder() returns (x: int)
      requires OrdersOk() && |value| == vc + 1
      modifies `nextVar
      ensures x == 0 ==> nextVar == old(nextVar) && forall i :: nextVar <= i < |varOrder| ==> Val(value, varOrder[i]) != 0
      ensures x != 0 ==> LitOk(vc, x) && Val(value, x) == 0 && old(nextVar) < nextVar <= |varOrder| && varOrder[nextVar - 1] == VarOf(x)
      ensures x != 0 ==> forall i :: old(nextVar) <= i < nextVar - 1 ==> Val(value, varOrder[i]) != 0
      ensures OrdersOkBut(VarOf(x)) && (x != 0 ==> VarOf(x) < |activity| == |phase| && x == Signed(activity, phase, VarOf(x)))
      ensures ScanStep(old(Now()), Now(), x)
    {
      hide Signed;
      ScoringSizes(vc, imp, slot, activity, phase, moved);
      hide ScoringOk;
      for i := nextVar to |varOrder|
        invariant nextVar == old(nextVar) && forall j :: nextVar <= j < i ==> Val(value, varOrder[j]) != 0
      {
        if value[varOrder[i]] == 0 {
          NextFreeIs(value, varOrder, nextVar, i);
          nextVar := i + 1;
          return Signed(activity, phase, varOrder[i]);
        }
      }
      NextFreeIs(value, varOrder, nextVar, |varOrder|);
      x := 0;
    }

    /** selectLiteral without helpers: 0 if it finds no free variable. */
    method SelectLiteral() returns (x: int)
      requires Searching()
      modifies `nextVar, `nextClause
      ensures if x == 0 then Exhausted() else Selected(x)
      ensures old(nextClause) == -1 ==> ScanStep(old(Now()), Now(), x)
      ensures if AllSatisfied(cc, store, value, WindowStart(old(nextClause)), old(nextClause) + 1) then
                && Picked(cc, store, activity, phase, value, old(nextClause), nextClause, 0)
                && ScanStep(old(Now()).(nextClause := nextClause), Now(), x)
                && (x != 0 ==> VarOf(x) < |activity| == |phase| && x == Signed(activity, phase, VarOf(x)))
              else
                Picked(cc, store, activity, phase, value, old(nextClause), nextClause, x) && nextVar == old(nextVar)
    {
      hide AllSatisfied;
      hide BestIn;
      hide Inv;
      hide InvBelow;
      hide OrderOk;
      hide SkipOk;
      hide ScoringOk;
      hide OrdersOk;
      hide OrdersOkBut;
      hide UpStep;
      hide AllClear;
      hide TrailOk;
      hide ListShape;
      hide StoreShape;
      hide Filed;
      hide StoreSound;
      hide RootSound;
      hide Entails;
      hide RootsKept;
      hide Todo;
      hide LearnedOk;
      hide Satisfiable;
      hide Evolves;
      hide Link;
      hide RootsHeld;
      hide Origin;
      hide LoadedHeld;
      hide Archive;
      BusyFacts(base, St(), {}, 0, []);
      x := SelectFromConflict();
      if x == 0 {
        x := SelectByOrder();
        if x == 0 {
          OrdersNarrow();
        }
      } else {
        OrdersWider(VarOf(x));
      }
    }

    // ---------------------------------------------------------- solutions

    /** How the stored clauses stand for the base formula. */
    ghost predicate Linked()
      reads this
    {
      Link(base, cc, store, imp, solutionIndices, unitConflicts) && RootsHeld(cc, store, unitConflicts, level, trail)
    }

    /** Marks the variable of a true literal of c: one already marked, or else the one the scan prefers. */
    method MarkSatisfied(c: seq<int>) returns (ok: bool)
      requires |mark2| == |value| == vc + 1 && forall k :: 0 <= k < |c| ==> LitOk(vc, c[k])
      modifies `mark2
      ensures !ok ==> mark2 == old(mark2) && forall k :: 0 <= k < |c| ==> Val(value, c[k]) != 1
      ensures ok ==> Chooses(value, old(mark2), c, mark2) && |mark2| == vc + 1
    {
      hide NeedMarked;
      hide LeastFrom;
      var satisfied := false;
      var minVar, minLit := -1, -1;
      ghost var start, at: nat := 0, 0;
      for k := 0 to |c|
        invariant mark2 == old(mark2) && minLit == -1
        invariant !satisfied ==> minVar == -1 && forall i :: 0 <= i < k ==> Val(value, c[i]) != 1
        invariant satisfied ==> at < k && minVar == VarOf(c[at]) && Val(value, c[at]) == 1 && LeastFrom(value, c[..k], start, at)
        invariant NoneMarked(value, mark2, c[..k])
      {
        var lit := c[k];
        NoneMarkedMore(value, mark2, c, k);
        if Val(value, lit) == 1 {
          if satisfied {
            LeastMore(value, c, k, start, at);
          } else {
            LeastFirst(value, c, k);
          }
          satisfied := true;
          var v := VarOf(lit);
          if mark2[v] {
            minVar, minLit := v, lit;
            MarkedChosen(value, mark2, c, k);
            mark2 := mark2[minVar := true];
            return true;
          }
          if minVar == -1 || (lit > 0 && minLit < 0) || v < minVar {
            if minVar == -1 || lit > 0 {
              start := k;
            }
            minVar, at := v, k;
          }
        } else if satisfied {
          LeastSame(value, c, k, start, at);
        }
      }
      assert c[..|c|] == c;
      if satisfied {
        LeastChosen(value, mark2, c, start, at);
        mark2 := mark2[minVar := true];
      }
      ok := satisfied;
    }

    /** verify_and_trim_Solution: checks every clause and then frees each variable no clause was found to need. */
    method VerifyAndTrim() returns (ok: bool)
      requires |value| == |mark2| == vc + 1 && value[0] == 0 && StoreShape(vc, cc, store)
      requires forall i :: 0 <= i < |solutionIndices| ==> solutionIndices[i] < |store|
      requires forall i :: 0 <= i < |unitConflicts| ==> LitOk(vc, unitConflicts[i])
      modifies `mark2, `value
      ensures |mark2| == |value| == vc + 1
      ensures !ok ==> value == old(value) && Unsatisfied(cc, store, solutionIndices, value)
      ensures ok ==> Trimmed(cc, store, solutionIndices, unitConflicts, old(value), value)
      ensures ok ==> Trims(Checked(cc, store, solutionIndices), unitConflicts, old(value), value)
    {
      hide StoreShape;
      hide Trimmed;
      hide NeedMarked;
      hide MarksAfter;
      hide Checked;
      hide Leaves;
      hide Unsatisfied;
      ok := CheckClauses();
      if !ok {
        return;
      }
      ghost var chosen := mark2;
      MarkUnits();
      FreeUnmarked();
      TrimmedKeeps(old(value), value, mark2);
      NeedsKept(cc, store, solutionIndices, old(value), chosen, mark2);
      TrimmedIntro(cc, store, solutionIndices, unitConflicts, old(value), value, mark2);
      LeavesIntro(chosen, mark2, unitConflicts, old(value), value);
    }

    /** The clauses loaded and the blocking clauses are looked at in turn, and in each a literal is chosen. */
    method CheckClauses() returns (ok: bool)
      requires |value| == |mark2| == vc + 1 && StoreShape(vc, cc, store)
      requires forall i :: 0 <= i < |solutionIndices| ==> solutionIndices[i] < |store|
      modifies `mark2
      ensures |mark2| == vc + 1 && (!ok ==> Unsatisfied(cc, store, solutionIndices, value))
      ensures ok ==> MarksAfter(value, Checked(cc, store, solutionIndices), mark2) && AllNeeds(cc, store, solutionIndices, value, mark2)
    {
      hide StoreShape;
      hide Chooses;
      hide NeedMarked;
      hide MarksAfter;
      hide Checked;
      CountInStore(vc, cc, store);
      ghost var cs := Checked(cc, store, solutionIndices);
      CheckedAre(cc, store, solutionIndices);
      for v := 1 to vc + 1
        invariant |mark2| == vc + 1 && forall u :: 1 <= u < v ==> !mark2[u]
      {
        mark2 := mark2[v := false];
      }
      MarksNone(value, cs, mark2);
      for id := 0 to cc
        invariant |mark2| == vc + 1 && MarksAfter(value, cs[..id], mark2)
        invariant forall j :: 0 <= j < id ==> NeedMarked(value, mark2, store[j])
      {
        StoredClause(vc, cc, store, id);
        ghost var mark0 := mark2;
        ok := MarkSatisfied(store[id]);
        if !ok {
          return;
        }
        ChoosesGrows(value, mark0, store[id], mark2);
        MarksMore(value, cs, id, mark0, mark2);
      }
      for i := 0 to |solutionIndices|
        invariant |mark2| == vc + 1 && MarksAfter(value, cs[..cc + i], mark2)
        invariant forall j :: 0 <= j < cc ==> NeedMarked(value, mark2, store[j])
        invariant forall j :: 0 <= j < i ==> NeedMarked(value, mark2, store[solutionIndices[j]])
      {
        StoredClause(vc, cc, store, solutionIndices[i]);
        ghost var mark0 := mark2;
        ok := MarkSatisfied(store[solutionIndices[i]]);
        if !ok {
          return;
        }
        ChoosesGrows(value, mark0, store[solutionIndices[i]], mark2);
        MarksMore(value, cs, cc + i, mark0, mark2);
      }
      assert cs[..cc + |solutionIndices|] == cs;
      ok := true;
    }

    /** The blocking units are kept by default. */
    method MarkUnits()
      requires |mark2| == vc + 1 && forall i :: 0 <= i < |unitConflicts| ==> LitOk(vc, unitConflicts[i])
      modifies `mark2
      ensures |mark2| == vc + 1
      ensures forall v :: 0 <= v <= vc ==> (mark2[v] <==> old(mark2)[v] || InUnits(unitConflicts, v))
      ensures forall i :: 0 <= i < |unitConflicts| ==> Marked(mark2, unitConflicts[i])
    {
      for i := 0 to |unitConflicts|
        invariant |mark2| == vc + 1
        invariant forall v :: 0 <= v <= vc ==> (mark2[v] <==> old(mark2)[v] || InUnits(unitConflicts[..i], v))
      {
        InUnitsMore(unitConflicts, i);
        hide InUnits;
        mark2 := mark2[VarOf(unitConflicts[i]) := true];
      }
      assert unitConflicts[..|unitConflicts|] == unitConflicts;
    }

    method FreeUnmarked()
      requires |value| == |mark2| == vc + 1 && value[0] == 0
      modifies `value
      ensures |value| == vc + 1 && forall v :: 0 <= v <= vc ==> value[v] == if mark2[v] then old(value)[v] else 0
    {
      ghost var value0 := value;
      for v := 1 to vc + 1
        invariant |value| == vc + 1 && forall u :: 0 <= u < v ==> value[u] == if mark2[u] then value0[u] else 0
        invariant forall u :: v <= u <= vc ==> value[u] == value0[u]
      {
        if !mark2[v] {
          value := value[v := 0];
        }
      }
    }

    /** No variable is left assigned without need. */
    ghost predicate Minimal()
      reads `cc, `store, `solutionIndices, `unitConflicts, `trail, `value
    {
      TrimsStack(vc, Checked(cc, store, solutionIndices), unitConflicts, trail, value)
    }

    /** The clauses and the orders of a solver. */
    ghost predicate Stocked()
      reads this
    {
      && Archive(base, vc, cc, store, imp, watch) && Link(base, cc, store, imp, solutionIndices, unitConflicts)
      && Shaped() && forall i :: 0 <= i < |unitConflicts| ==> LitOk(vc, unitConflicts[i])
    }

    ghost predicate Shaped()
      reads `value, `level, `ante, `mark2, `mark, `varOrder, `varPosition, `ordered, `imp, `slot, `activity, `phase,
            `moved
    {
      && |value| == |level| == |ante| == |mark2| == vc + 1 && value[0] == 0 && AllClear(vc, mark)
      && OrderOk(vc, varOrder, varPosition, ordered) && ScoringOk(vc, imp, slot, activity, phase, moved)
    }

    /** What a solver keeps while no search is under way. */
    ghost predicate Rested()
      reads this
    {
      Stocked() && Origin(formula, cc, store, ordered, loaded)
    }

    /** What holds before and after every call of run: the solver is ready to search on, or has refuted the base formula. */
    ghost predicate Valid()
      reads this
    {
      if unitContradiction then !Satisfiable(base)
      else if dLevel == 0 then Stocked() && !Satisfiable(base)
      else Searching()
    }

    ghost predicate Searching()
      reads this
    {
      Ready() && Linked() && Rested() && LoadedHeld(loaded, level, trail) && -1 <= nextClause < |store| - cc
    }

    /** run, with the decisions counted up to reportingTime. */
    method Run(reportingTime: nat) returns (r: RunResult)
      requires Valid() && reportingTime >= 1
      modifies `trail, `value, `level, `ante, `mark, `mark2, `activity, `varOrder, `varPosition, `moved, `nextVar,
               `nextClause, `store, `watch, `aLevel, `learned, `slot, `nConflicts, `dLevel, `phase, `nextDecay,
               `skipped, `decisions
      ensures r == Unsat ==> !Satisfiable(base)
      ensures old(unitContradiction || dLevel == 0) ==> r == Unsat
      ensures r == Sat ==> Rested() && Implicant(value, base) && InRange(value) && Minimal() && !unitContradiction
      ensures r == Paused ==> Valid() && !unitContradiction && dLevel != 0 && decisions == old(decisions) + reportingTime - 1
      ensures r == Inconsistent ==> LostPair(cc, store, solutionIndices, value, ordered, skipped + moved)
      ensures r == Inconsistent ==> Origin(formula, cc, store, ordered, loaded) && (moved != {} ==> Listed(imp))
      ensures |skipped| <= |old(skipped)| + 1 && (r != Paused ==> skipped == old(skipped))
      ensures Evolves(cc, old(store), store) && decisions >= old(decisions)
      ensures old(!unitContradiction && dLevel != 0) ==> Outcome(r, reportingTime, old(Now()), Now())
    {
      hide LostPair;
      hide Outcome;
      hide Inv;
      hide InvBelow;
      hide OrderOk;
      hide SkipOk;
      hide ScoringOk;
      hide OrdersOk;
      hide OrdersOkBut;
      hide UpStep;
      hide AllClear;
      hide TrailOk;
      hide ListShape;
      hide StoreShape;
      hide Filed;
      hide StoreSound;
      hide RootSound;
      hide Entails;
      hide RootsKept;
      hide Todo;
      hide LearnedOk;
      hide Satisfiable;
      hide Evolves;
      hide Link;
      hide RootsHeld;
      hide Origin;
      hide LoadedHeld;
      hide Archive;
      EvolvesAdded(cc, store, store);
      if unitContradiction || dLevel == 0 {
        return Unsat;
      }
      r := Search(reportingTime);
      if r == Inconsistent {
        ScoringMoves(vc, imp, slot, activity, phase, moved);
      }
    }

    /** Literal x has been selected: its variable may already lie before the starting point of the next scan. */
    ghost predicate Selected(x: int)
      reads this
    {
      && dLevel >= 1 && Inv(base, St(), {}, -1, 0, []) && Linked() && Rested() && LoadedHeld(loaded, level, trail)
      && -1 <= nextClause < |store| - cc && LitOk(vc, x) && Val(value, x) == 0 && OrdersOkBut(VarOf(x))
    }

    /** No free variable is left from the starting point of the scan on. */
    ghost predicate Exhausted()
      reads this
    {
      Searching() && forall i :: nextVar <= i < |varOrder| ==> Val(value, varOrder[i]) != 0
    }

    /** The search loop of run. */
    method Search(reportingTime: nat) returns (r: RunResult)
      requires Searching() && reportingTime >= 1
      modifies `trail, `value, `level, `ante, `mark, `mark2, `activity, `varOrder, `varPosition, `moved, `nextVar,
               `nextClause, `store, `watch, `aLevel, `learned, `slot, `nConflicts, `dLevel, `phase, `nextDecay,
               `skipped, `decisions
      ensures r == Unsat ==> !Satisfiable(base)
      ensures r == Sat ==> Rested() && Implicant(value, base) && InRange(value) && Minimal()
      ensures r == Paused ==> Searching() && decisions == old(decisions) + reportingTime - 1
      ensures r == Inconsistent ==> LostPair(cc, store, solutionIndices, value, ordered, skipped + moved) && Rested()
      ensures |skipped| <= |old(skipped)| + 1 && (r != Paused ==> skipped == old(skipped))
      ensures Evolves(cc, old(store), store) && decisions >= old(decisions)
      ensures Outcome(r, reportingTime, old(Now()), Now())
    {
      hide Evolves;
      hide Outcome;
      hide Progress;
      hide ScanStep;
      hide Searching;
      hide Selected;
      hide Exhausted;
      hide Rested;
      hide Implicant;
      hide InRange;
      hide LostPair;
      hide Satisfiable;
      hide QuietChoice;
      hide QuietDecision;
      hide Freed;
      hide QuietPause;
      EvolvesAdded(cc, store, store);
      var selected, done := 0, false;
      ghost var start := Now();
      ProgressStarts(reportingTime, start);
      r := Unsat;
      while !done
        invariant !done ==> Searching() && 0 <= selected < reportingTime && decisions == old(decisions) + selected && skipped == old(skipped)
        invariant !done ==> Progress(reportingTime, start, Now(), selected)
        invariant Evolves(cc, old(store), store) && decisions >= old(decisions)
        invariant done ==> Outcome(r, reportingTime, start, Now())
        invariant done && r == Unsat ==> !Satisfiable(base)
        invariant done && r == Sat ==> Rested() && Implicant(value, base) && InRange(value) && Minimal()
        invariant done && r == Paused ==> Searching() && decisions == old(decisions) + reportingTime - 1
        invariant done && r == Inconsistent ==> LostPair(cc, store, solutionIndices, value, ordered, skipped + moved) && Rested()
        invariant |skipped| <= |old(skipped)| + 1 && (done && r != Paused ==> skipped == old(skipped))
        decreases reportingTime - selected, !done
      {
        ghost var store1 := store;
        done, r := SelectAndDecide(reportingTime, selected, start);
        EvolvesTransitive(cc, old(store), store1, store);
        selected := if done then selected else selected + 1;
      }
    }

    /** One round of the search loop. */
    method SelectAndDecide(reportingTime: nat, selected: nat, ghost start: Scan) returns (done: bool, r: RunResult)
      requires Searching() && selected < reportingTime && Progress(reportingTime, start, Now(), selected)
      modifies `trail, `value, `level, `ante, `mark, `mark2, `activity, `varOrder, `varPosition, `moved, `nextVar,
               `nextClause, `store, `watch, `aLevel, `learned, `slot, `nConflicts, `dLevel, `phase, `nextDecay,
               `skipped, `decisions
      ensures !done ==> Searching() && selected + 1 < reportingTime && decisions == old(decisions) + 1 && skipped == old(skipped)
      ensures !done ==> Progress(reportingTime, start, Now(), selected + 1)
      ensures Evolves(cc, old(store), store) && decisions >= old(decisions)
      ensures done ==> Outcome(r, reportingTime, start, Now())
      ensures done && r == Unsat ==> !Satisfiable(base)
      ensures done && r == Sat ==> Rested() && Implicant(value, base) && InRange(value) && Minimal()
      ensures done && r == Paused ==> Searching() && decisions == old(decisions) && selected + 1 == reportingTime
      ensures done && r == Inconsistent ==> LostPair(cc, store, solutionIndices, value, ordered, skipped + moved) && Rested()
      ensures |skipped| <= |old(skipped)| + 1 && (done && r != Paused ==> skipped == old(skipped))
    {
      hide Evolves;
      hide Outcome;
      hide Progress;
      hide ScanStep;
      hide Searching;
      hide Selected;
      hide Exhausted;
      hide Rested;
      hide Implicant;
      hide InRange;
      hide LostPair;
      hide Satisfiable;
      hide QuietChoice;
      hide QuietDecision;
      hide Freed;
      EvolvesAdded(cc, store, store);
      ghost var before := Now();
      var lit := SelectLiteral();
      ghost var chosen := Now();
      if lit == 0 {
        r := CheckSolution();
        Checks(r, reportingTime, start, before, chosen, Now(), selected);
        return true, r;
      }
      if selected + 1 == reportingTime {
        Pauses(reportingTime, start, before, chosen, selected, lit);
        Drop(lit);
        return true, Paused;
      }
      done := DecideNext(lit, reportingTime - selected - 1);
      GoesOn(reportingTime, start, before, chosen, Now(), selected, lit, done);
      r := Unsat;
    }

    /** A pause forgets the selected literal, although the scan has moved past it. */
    ghost method Drop(lit: int)
      requires Selected(lit)
      modifies `skipped
      ensures Searching() && skipped == old(skipped) + {VarOf(lit)}
    {
      hide Inv;
      hide InvBelow;
      hide OrderOk;
      hide SkipOk;
      hide ScoringOk;
      hide UpStep;
      hide AllClear;
      hide TrailOk;
      hide ListShape;
      hide StoreShape;
      hide Filed;
      hide StoreSound;
      hide RootSound;
      hide Entails;
      hide RootsKept;
      hide Todo;
      hide LearnedOk;
      hide Satisfiable;
      hide Evolves;
      hide Link;
      hide RootsHeld;
      hide Origin;
      hide LoadedHeld;
      hide Archive;
      assert (skipped + {VarOf(lit)}) + moved == skipped + moved + {VarOf(lit)};
      skipped := skipped + {VarOf(lit)};
    }

    /** One round of the search loop: a decision and the conflicts it leads to. */
    method DecideAndSettle(lit: int) returns (unsat: bool)
      requires Selected(lit)
      modifies `trail, `value, `level, `ante, `mark, `activity, `varOrder, `varPosition, `moved, `nextVar,
               `nextClause, `store, `watch, `aLevel, `learned, `slot, `nConflicts, `dLevel, `phase, `nextDecay,
               `decisions
      ensures if unsat then !Satisfiable(base) else Searching()
      ensures Evolves(cc, old(store), store) && decisions == old(decisions) + 1
      ensures old(Roomy(store, imp, |trail| + 3)) ==> !unsat && trail == old(trail) + [lit] && Books() == old(Books()) && nextClause == old(nextClause)
    {
      hide Inv;
      hide InvBelow;
      hide OrderOk;
      hide SkipOk;
      hide ScoringOk;
      hide OrdersOk;
      hide OrdersOkBut;
      hide UpStep;
      hide AllClear;
      hide TrailOk;
      hide ListShape;
      hide StoreShape;
      hide Filed;
      hide StoreSound;
      hide RootSound;
      hide Entails;
      hide RootsKept;
      hide Todo;
      hide LearnedOk;
      hide Satisfiable;
      hide Evolves;
      hide Link;
      hide RootsHeld;
      hide Origin;
      hide LoadedHeld;
      hide Archive;
      hide Roomy;
      ghost var s0 := St();
      unsat := Settle(lit);
      if !unsat {
        OrdersOpen();
        SearchOn(base, s0, St(), solutionIndices, unitConflicts);
        OriginKept(formula, cc, s0.store, ordered, loaded, store);
        LoadedHeldKept(loaded, s0.level, s0.trail, level, trail);
      }
    }

    /** The same; among clauses with room for n more selections it only adds the literal to the stack. */
    method DecideNext(lit: int, ghost n: nat) returns (unsat: bool)
      requires Selected(lit) && n >= 1
      modifies `trail, `value, `level, `ante, `mark, `activity, `varOrder, `varPosition, `moved, `nextVar,
               `nextClause, `store, `watch, `aLevel, `learned, `slot, `nConflicts, `dLevel, `phase, `nextDecay,
               `decisions
      ensures if unsat then !Satisfiable(base) else Searching()
      ensures Evolves(cc, old(store), store) && decisions == old(decisions) + 1
      ensures old(QuietChoice(Now(), n, lit)) ==> !unsat && QuietDecision(old(Now()), Now(), n)
    {
      hide Inv;
      hide OrderOk;
      hide OrdersOk;
      hide OrdersOkBut;
      hide Satisfiable;
      hide Evolves;
      hide Stocked;
      hide Origin;
      hide LoadedHeld;
      hide Linked;
      hide QuietChoice;
      hide QuietDecision;
      hide Roomy;
      ghost var chosen, quiet := Now(), QuietChoice(Now(), n, lit);
      if quiet {
        QuietRoom(chosen, n, lit);
      }
      unsat := DecideAndSettle(lit);
      if quiet {
        OrdersOpen();
        QuietDecided(base, chosen, Now(), varPosition, ordered, n, lit);
      }
    }

    method Settle(lit: int) returns (unsat: bool)
      requires dLevel >= 1 && Inv(base, St(), {}, -1, 0, []) && AllClear(vc, mark) && LitOk(vc, lit) && Val(value, lit) == 0
      requires OrdersOkBut(VarOf(lit)) && -1 <= nextClause < |store| - cc
      modifies `trail, `value, `level, `ante, `mark, `activity, `varOrder, `varPosition, `moved, `nextVar,
               `nextClause, `store, `watch, `aLevel, `learned, `slot, `nConflicts, `dLevel, `phase, `nextDecay,
               `decisions
      ensures if unsat then !Satisfiable(base) else Ready() && -1 <= nextClause < |store| - cc
      ensures Evolves(cc, old(store), store) && RootsKept(old(level), old(trail), level, trail) && decisions == old(decisions) + 1
      ensures old(Roomy(store, imp, |trail| + 3)) ==> !unsat && trail == old(trail) + [lit] && Books() == old(Books()) && nextClause == old(nextClause)
    {
      hide Inv;
      hide InvBelow;
      hide OrderOk;
      hide SkipOk;
      hide ScoringOk;
      hide OrdersOk;
      hide OrdersOkBut;
      hide UpStep;
      hide AllClear;
      hide TrailOk;
      hide ListShape;
      hide StoreShape;
      hide Filed;
      hide StoreSound;
      hide RootSound;
      hide Entails;
      hide RootsKept;
      hide Todo;
      hide LearnedOk;
      hide Satisfiable;
      hide Evolves;
      hide Roomy;
      ghost var s0 := St();
      unsat := false;
      var ok := Decide(lit);
      decisions := decisions + 1;
      StoreSize(cc, old(store), store);
      if Roomy(s0.store, imp, |s0.trail| + 3) {
        QuietRoomy(base, s0, St(), lit, ok);
      }
      if !ok {
        ghost var level1, trail1, store1 := level, trail, store;
        unsat := HandleConflict();
        RootsTransitive(old(level), old(trail), level1, trail1, level, trail);
        EvolvesTransitive(cc, old(store), store1, store);
      }
    }

    /** The trimming of the true literals of the stack. */
    method TrimSolution() returns (ok: bool)
      requires |value| == |mark2| == vc + 1 && Inv(base, St(), {}, -1, 0, []) && Linked() && Stocked()
      modifies `mark2, `value
      ensures |mark2| == |value| == vc + 1 && value[0] == 0
      ensures !ok ==> value == old(value) && Unsatisfied(cc, store, solutionIndices, value)
      ensures ok ==> Implicant(value, base) && InRange(value) && Minimal() && Freed(old(value), value)
    {
      hide Inv;
      hide TrailOk;
      hide StoreShape;
      hide OrderOk;
      hide ScoringOk;
      hide AllClear;
      hide RootSound;
      hide Link;
      hide RootsHeld;
      hide Archive;
      hide Trimmed;
      hide Unsatisfied;
      hide Trims;
      hide TrimsStack;
      hide InRange;
      hide Implicant;
      BusyFacts(base, St(), {}, 0, []);
      TrailFacts(vc, value, level, trail, dLevel);
      LinkSizes(base, cc, store, imp, solutionIndices, unitConflicts);
      ghost var value0 := value;
      ok := VerifyAndTrim();
      if ok {
        StackTrims(base, St().(value := value0), Checked(cc, store, solutionIndices), unitConflicts, value);
        TrimmedImplicant(base, cc, store, imp, solutionIndices, unitConflicts, value0, value, level, trail);
        TrimmedZero(cc, store, solutionIndices, unitConflicts, value0, value);
        TrimmedFrees(cc, store, solutionIndices, unitConflicts, value0, value);
      }
    }

    /** The end of run: nothing is left to decide, so the assignment is checked and trimmed. */
    /** A clause found unsatisfied has two literals that the scan has lost. */
    lemma Loses()
      requires Exhausted() && Unsatisfied(cc, store, solutionIndices, value)
      ensures LostPair(cc, store, solutionIndices, value, ordered, skipped + moved)
    {
      hide Inv;
      hide InvBelow;
      hide OrderOk;
      hide SkipOk;
      hide ScoringOk;
      hide UpStep;
      hide AllClear;
      hide TrailOk;
      hide ListShape;
      hide StoreShape;
      hide Filed;
      hide StoreSound;
      hide RootSound;
      hide Entails;
      hide RootsKept;
      hide Todo;
      hide LearnedOk;
      hide Satisfiable;
      hide Evolves;
      hide Link;
      hide RootsHeld;
      hide Origin;
      hide LoadedHeld;
      hide Archive;
      hide Trimmed;
      hide Unsatisfied;
      BusyFacts(base, St(), {}, 0, []);
      TrailFacts(vc, value, level, trail, dLevel);
      UnsatisfiedOpen(base, St(), solutionIndices, unitConflicts);
      PairLost(formula, vc, cc, store, solutionIndices, value, level, trail, varOrder, varPosition, ordered, loaded, nextVar, skipped + moved);
    }

    method CheckSolution() returns (r: RunResult)
      requires Exhausted()
      modifies `mark2, `value
      ensures (r == Sat && Freed(old(value), value)) || (r == Inconsistent && value == old(value))
      ensures r == Sat ==> Rested() && Implicant(value, base) && InRange(value) && Minimal()
      ensures r == Inconsistent ==> LostPair(cc, store, solutionIndices, value, ordered, skipped + moved) && Rested()
    {
      hide Inv;
      hide InvBelow;
      hide OrderOk;
      hide SkipOk;
      hide ScoringOk;
      hide UpStep;
      hide AllClear;
      hide TrailOk;
      hide ListShape;
      hide StoreShape;
      hide Filed;
      hide StoreSound;
      hide RootSound;
      hide Entails;
      hide RootsKept;
      hide Todo;
      hide LearnedOk;
      hide Satisfiable;
      hide Evolves;
      hide Link;
      hide RootsHeld;
      hide Origin;
      hide LoadedHeld;
      hide Archive;
      hide Trimmed;
      hide Unsatisfied;
      hide InRange;
      hide Implicant;
      hide Minimal;
      hide Freed;
      hide LostPair;
      BusyFacts(base, St(), {}, 0, []);
      var ok := TrimSolution();
      if ok {
        return Sat;
      }
      Loses();
      r := Inconsistent;
    }

    // ------------------------------------------- blocking a solution, starting again

    /** solver_add_conflict_clause. */
    method AddConflictClause(c: seq<int>)
      requires Rested() && c != [] && ClauseShape(vc, c)
      modifies `base, `store, `watch, `learned, `unitConflicts, `solutionIndices
      ensures base == old(base) + [c] && Rested() && old(store) <= store
    {
      hide Stocked;
      hide Origin;
      hide ClauseShape;
      hide Evolves;
      ghost var store0 := store;
      FileConflictClause(c);
      EvolvesAdded(cc, store0, store);
      OriginKept(formula, cc, store0, ordered, loaded, store);
    }

    method FileConflictClause(c: seq<int>)
      requires Stocked() && c != [] && ClauseShape(vc, c)
      modifies `base, `store, `watch, `learned, `unitConflicts, `solutionIndices
      ensures base == old(base) + [c] && Stocked() && old(store) <= store
    {
      hide Inv;
      hide Shaped;
      hide InvBelow;
      hide OrderOk;
      hide SkipOk;
      hide ScoringOk;
      hide OrdersOk;
      hide OrdersOkBut;
      hide UpStep;
      hide AllClear;
      hide TrailOk;
      hide ListShape;
      hide StoreShape;
      hide Filed;
      hide StoreSound;
      hide RootSound;
      hide Entails;
      hide RootsKept;
      hide Todo;
      hide LearnedOk;
      hide Satisfiable;
      hide Evolves;
      hide Link;
      hide RootsHeld;
      hide Origin;
      hide LoadedHeld;
      hide Archive;
      hide ClauseShape;
      hide Arranged;
      ghost var base0, store0, watch0, indices0, units0 := base, store, watch, solutionIndices, unitConflicts;
      base := base + [c];
      ArchiveLists(base0, vc, cc, store, imp, watch);
      ArchiveSize(base0, vc, cc, store, imp, watch);
      ArrangedSame(c, vc);
      ArchiveGrows(base0, c, vc, cc, store, imp, watch);
      AddClause(c);
      if |c| == 1 {
        unitConflicts := unitConflicts + [c[0]];
        LinkUnit(base0, cc, store, imp, solutionIndices, units0, c);
        UnitLits(vc, c);
      }
      if learned.Clause? {
        solutionIndices := solutionIndices + [learned.id];
        ArchiveAdds(base, vc, cc, store0, imp, watch0, Arranged(c), c);
        LinkClause(base0, cc, store0, imp, indices0, unitConflicts, c, Arranged(c));
      }
    }

    /** Puts a unit clause on the stack, unless it is there already; false if it is refuted. */
    method PlaceUnit(u: int) returns (ok: bool)
      requires RootState(base, St()) && LitOk(vc, u) && Entails(base, [u]) && OrdersOk()
      modifies `value, `level, `ante, `trail
      ensures ok ==> RootState(base, St()) && u in trail && OrdersOk()
      ensures ok ==> trail == old(trail) || trail == old(trail) + [u]
      ensures !ok ==> !Satisfiable(base) && St() == old(St()) && -u in trail
      ensures old(trail) <= trail
    {
      hide Inv;
      hide InvBelow;
      hide OrderOk;
      hide SkipOk;
      hide ScoringOk;
      hide OrdersOk;
      hide OrdersOkBut;
      hide UpStep;
      hide AllClear;
      hide TrailOk;
      hide ListShape;
      hide StoreShape;
      hide Filed;
      hide StoreSound;
      hide RootSound;
      hide Entails;
      hide RootsKept;
      hide Todo;
      hide LearnedOk;
      hide Satisfiable;
      hide Evolves;
      hide Link;
      hide RootsHeld;
      hide Origin;
      hide LoadedHeld;
      hide Archive;
      hide RootState;
      RootFacts(base, St());
      ok := true;
      if Val(value, u) == 0 {
        RootPlaced(base, St(), u);
        OrdersWider(VarOf(u));
        Push(u, Root);
        assert trail[|trail| - 1] == u;
      } else if Val(value, u) == -1 {
        TrailFacts(vc, value, level, trail, dLevel);
        assert Val(value, -u) == 1;
        RootRefuted(base, St(), u);
        ok := false;
      } else {
        TrailFacts(vc, value, level, trail, dLevel);
      }
    }

    /** reset_solver: clears every assignment and puts the blocking and the formula's unit clauses back; false if they
        contradict each other. */
    method Reset() returns (ok: bool)
      requires Rested() && !unitContradiction
      modifies `trail, `value, `level, `ante, `mark, `activity, `varOrder, `varPosition, `moved, `nextVar,
               `nextClause, `store, `watch, `aLevel, `learned, `slot, `nConflicts, `dLevel, `phase, `skipped
      ensures if ok then Valid() && (dLevel != 0 ==> LoadedHeld(loaded, level, trail)) else !Satisfiable(base)
      ensures ok && dLevel != 0 ==> skipped == {} && moved == {}
      ensures Evolves(cc, old(store), store)
    {
      hide Inv;
      hide Valid;
      hide Rested;
      hide Linked;
      hide InvBelow;
      hide OrderOk;
      hide SkipOk;
      hide ScoringOk;
      hide OrdersOk;
      hide OrdersOkBut;
      hide UpStep;
      hide AllClear;
      hide TrailOk;
      hide ListShape;
      hide StoreShape;
      hide Filed;
      hide StoreSound;
      hide RootSound;
      hide Entails;
      hide RootsKept;
      hide Todo;
      hide LearnedOk;
      hide Satisfiable;
      hide Evolves;
      hide Link;
      hide RootsHeld;
      hide Origin;
      hide LoadedHeld;
      hide Archive;
      hide RootState;
      EvolvesAdded(cc, store, store);
      ClearAll();
      ok := PlaceUnits();
      if ok {
        SearchAgain();
      }
    }

    /** A search after a reset starts with the root literals found at loading. */
    method SearchAgain()
      requires RootState(base, St()) && OrdersOk() && Linked() && Rested() && nextClause == |store| - cc - 1 && !unitContradiction
      modifies `trail, `value, `level, `ante, `mark, `activity, `varOrder, `varPosition, `moved, `nextVar, `store,
               `watch, `aLevel, `learned, `slot, `nConflicts, `dLevel, `phase
      ensures dLevel != 0 ==> moved == old(moved)
      ensures Valid() && Evolves(cc, old(store), store) && (dLevel != 0 ==> LoadedHeld(loaded, level, trail))
    {
      hide Inv;
      hide OrdersOk;
      hide AllClear;
      hide Satisfiable;
      hide Evolves;
      hide Link;
      hide RootsHeld;
      hide Origin;
      hide LoadedHeld;
      hide Stocked;
      hide RootState;
      hide UpStep;
      ghost var store0 := store;
      StartSearch();
      OriginKept(formula, cc, store0, ordered, loaded, store);
      if dLevel != 0 {
        Reloaded(base, St(), formula, ordered, loaded, solutionIndices, unitConflicts);
      }
    }

    /** assertUnitClauses at the start of a search. */
    method StartSearch()
      requires RootState(base, St()) && OrdersOk() && Linked() && Stocked() && nextClause == |store| - cc - 1
      modifies `trail, `value, `level, `ante, `mark, `activity, `varOrder, `varPosition, `moved, `nextVar, `store,
               `watch, `aLevel, `learned, `slot, `nConflicts, `dLevel, `phase
      ensures Stocked() && Evolves(cc, old(store), store) && -1 <= nextClause < |store| - cc
      ensures if dLevel == 0 then !Satisfiable(base) else dLevel == 1 && Ready() && Linked() && Books() == old(Books())
      ensures UpStep(old(store), imp, old(trail), trail, dLevel != 0)
      ensures old(trail) == [] ==> St() == old(St()) && nextVar == old(nextVar)
    {
      hide Inv;
      hide InvBelow;
      hide OrderOk;
      hide SkipOk;
      hide ScoringOk;
      hide OrdersOk;
      hide OrdersOkBut;
      hide UpStep;
      hide AllClear;
      hide TrailOk;
      hide ListShape;
      hide StoreShape;
      hide Filed;
      hide StoreSound;
      hide RootSound;
      hide Entails;
      hide RootsKept;
      hide Todo;
      hide LearnedOk;
      hide Satisfiable;
      hide Evolves;
      hide Link;
      hide RootsHeld;
      hide Origin;
      hide LoadedHeld;
      hide Archive;
      hide RootState;
      ghost var s0 := St();
      ArchiveSize(base, vc, cc, store, imp, watch);
      var settled := AssertUnitClauses();
      OrdersOpen();
      StoreSize(cc, s0.store, store);
      if settled {
        SearchOn(base, s0, St(), solutionIndices, unitConflicts);
      } else {
        LinkKept(base, cc, s0.store, imp, solutionIndices, unitConflicts, store);
      }
    }

    method ClearAll()
      requires Rested()
      modifies `trail, `value, `level, `nextVar, `nextClause, `dLevel, `skipped, `moved
      ensures RootState(base, St()) && OrdersOk() && trail == [] && nextClause == |store| - cc - 1 && Rested()
      ensures skipped == {} && moved == {}
    {
      hide Inv;
      hide InvBelow;
      hide OrderOk;
      hide SkipOk;
      hide ScoringOk;
      hide UpStep;
      hide AllClear;
      hide TrailOk;
      hide ListShape;
      hide StoreShape;
      hide Filed;
      hide StoreSound;
      hide RootSound;
      hide Entails;
      hide RootsKept;
      hide Todo;
      hide LearnedOk;
      hide Satisfiable;
      hide Evolves;
      hide Link;
      hide RootsHeld;
      hide Origin;
      hide LoadedHeld;
      hide Archive;
      hide OrdersOk;
      while trail != []
        invariant Rested()
        decreases |trail|
      {
        trail := trail[..|trail| - 1];
      }
      ClearValues();
      dLevel := 1;
      nextClause := |store| - cc - 1;
      RootStart(base, St());
      ClearOrders();
    }

    method ClearValues()
      requires Rested()
      modifies `value, `level
      ensures Rested() && forall v :: 0 <= v <= vc ==> value[v] == 0
    {
      hide OrderOk;
      hide ScoringOk;
      hide AllClear;
      hide Archive;
      hide Link;
      hide Origin;
      for i := 0 to vc + 1
        invariant Rested()
        invariant forall v :: 0 <= v < i ==> value[v] == 0 && level[v] == 0
      {
        value, level := value[i := 0], level[i := 0];
      }
    }

    /** The scan starts at the front of the order, where everything free is found again. */
    method ClearOrders()
      requires Shaped()
      modifies `nextVar, `skipped, `moved
      ensures Shaped() && OrdersOk() && skipped == {} && moved == {}
    {
      hide OrderOk;
      hide SkipOk;
      hide ScoringOk;
      hide AllClear;
      ghost var moved0 := moved;
      nextVar := 0;
      skipped, moved := {}, {};
      ScoringKept(vc, imp, slot, activity, phase, moved0, activity, phase, moved);
      assert skipped + moved == {};
      SkipStart(value, varOrder);
    }

    /** The blocking unit clauses and then the unit clauses of the formula. */
    method PlaceUnits() returns (ok: bool)
      requires RootState(base, St()) && OrdersOk() && Rested()
      modifies `value, `level, `ante, `trail
      ensures ok ==> RootState(base, St()) && OrdersOk() && Linked() && Rested()
      ensures !ok ==> !Satisfiable(base)
    {
      hide Inv;
      hide InvBelow;
      hide OrderOk;
      hide SkipOk;
      hide ScoringOk;
      hide OrdersOk;
      hide OrdersOkBut;
      hide UpStep;
      hide AllClear;
      hide TrailOk;
      hide ListShape;
      hide StoreShape;
      hide Filed;
      hide StoreSound;
      hide RootSound;
      hide Entails;
      hide RootsKept;
      hide Todo;
      hide LearnedOk;
      hide Satisfiable;
      hide Evolves;
      hide Link;
      hide RootsHeld;
      hide Origin;
      hide LoadedHeld;
      hide Archive;
      hide RootState;
      hide Same;
      LinkedUnits(base, vc, cc, store, imp, watch, solutionIndices, unitConflicts);
      for i := 0 to |unitConflicts|
        invariant RootState(base, St()) && OrdersOk() && |value| == |level| == |ante| == vc + 1 && value[0] == 0
        invariant forall j :: 0 <= j < i ==> unitConflicts[j] in trail
      {
        ghost var trail0 := trail;
        ok := PlaceUnit(unitConflicts[i]);
        if !ok {
          return;
        }
        RootFacts(base, St());
        PrefixMembers(trail0, trail);
      }
      for id := 0 to cc
        invariant RootState(base, St()) && OrdersOk() && |value| == |level| == |ante| == vc + 1 && value[0] == 0
        invariant forall j :: 0 <= j < |unitConflicts| ==> unitConflicts[j] in trail
        invariant forall j :: 0 <= j < id && |store[j]| == 1 ==> store[j][0] in trail
      {
        if |store[id]| == 1 {
          ghost var trail0 := trail;
          ok := PlaceUnit(store[id][0]);
          if !ok {
            return;
          }
          RootFacts(base, St());
          PrefixMembers(trail0, trail);
        }
      }
      RootsHeldAtRoot(base, St(), unitConflicts);
      ok := true;
    }

    /** assertUnitClauses: takes the literals off the stack from the top down and asserts them again, so that the order of
        the stack changes on the way; on a conflict everything is undone. */
    method AssertUnitClauses() returns (ok: bool)
      requires RootState(base, St()) && OrdersOk() && AllClear(vc, mark)
      modifies `trail, `value, `level, `ante, `mark, `activity, `varOrder, `varPosition, `moved, `nextVar, `store,
               `watch, `aLevel, `learned, `slot, `nConflicts, `dLevel, `phase
      ensures ok ==> Ready() && dLevel == 1 && RootsKept(old(level), old(trail), level, trail)
      ensures !ok ==> dLevel == 0 && !Satisfiable(base) && OrdersOk() && AllClear(vc, mark)
      ensures Evolves(cc, old(store), store) && Archive(base, vc, cc, store, imp, watch)
      ensures UpStep(old(store), imp, old(trail), trail, ok) && (ok ==> Books() == old(Books()))
      ensures |value| == |level| == |ante| == vc + 1 && value[0] == 0
      ensures old(trail) == [] ==> ok && St() == old(St()) && nextVar == old(nextVar)
    {
      hide Inv;
      hide InvBelow;
      hide OrderOk;
      hide SkipOk;
      hide ScoringOk;
      hide OrdersOk;
      hide OrdersOkBut;
      hide UpStep;
      hide AllClear;
      hide TrailOk;
      hide ListShape;
      hide StoreShape;
      hide Filed;
      hide StoreSound;
      hide RootSound;
      hide Entails;
      hide RootsKept;
      hide Todo;
      hide LearnedOk;
      hide Satisfiable;
      hide Evolves;
      hide Link;
      hide RootsHeld;
      hide Origin;
      hide LoadedHeld;
      hide Archive;
      hide RootState;
      RootFacts(base, St());
      RootInv(base, St());
      RootsSame(level, trail);
      EvolvesAdded(cc, store, store);
      UpNone(store, imp, trail);
      var p := |trail| - 1;
      assert trail[..p + 1] == trail;
      while p >= 0
        invariant -1 <= p < |trail| && dLevel == 1 && Inv(base, St(), Elems(trail[..p + 1]), -1, 0, []) && OrdersOk() && AllClear(vc, mark)
        invariant Evolves(cc, old(store), store) && RootsKept(old(level), old(trail), level, trail)
        invariant UpStep(old(store), imp, old(trail), trail, true) && Books() == old(Books())
        invariant old(trail) == [] ==> p == -1 && St() == old(St()) && nextVar == old(nextVar)
      {
        ghost var level1, trail1, store1 := level, trail, store;
        ok := Reassert(p);
        EvolvesTransitive(cc, old(store), store1, store);
        UpChain(cc, old(store), store1, imp, old(trail), trail1, trail, ok);
        if !ok {
          ghost var trail2 := trail;
          Backtrack(dLevel - 1, -1);
          UpFail(old(store), imp, old(trail), trail2, trail);
          StoredByInv(base, St());
          return;
        }
        RootsTransitive(old(level), old(trail), level1, trail1, level, trail);
        p := p - 1;
      }
      assert trail[..p + 1] == [] && Elems([]) == {};
      StoredByInv(base, St());
      ok := true;
    }

    method Reassert(p: nat) returns (ok: bool)
      requires p < |trail| && dLevel == 1 && Inv(base, St(), Elems(trail[..p + 1]), -1, 0, []) && OrdersOk() && AllClear(vc, mark)
      modifies `trail, `value, `level, `ante, `mark, `activity, `varOrder, `varPosition, `moved, `nextVar, `store,
               `watch, `aLevel, `learned, `slot, `nConflicts
      ensures ok ==> p < |trail| && Inv(base, St(), Elems(trail[..p]), -1, 0, []) && OrdersOk() && AllClear(vc, mark)
      ensures ok ==> RootsKept(old(level), old(trail), level, trail)
      ensures !ok ==> Conflicted()
      ensures UpStep(old(store), imp, old(trail), trail, ok) && (ok ==> Books() == old(Books()))
      ensures Evolves(cc, old(store), store)
    {
      hide Inv;
      hide InvBelow;
      hide OrderOk;
      hide Conflicted;
      hide Books;
      hide SkipOk;
      hide ScoringOk;
      hide OrdersOk;
      hide OrdersOkBut;
      hide UpStep;
      hide AllClear;
      hide TrailOk;
      hide ListShape;
      hide StoreShape;
      hide Filed;
      hide StoreSound;
      hide RootSound;
      hide Entails;
      hide RootsKept;
      hide Todo;
      hide LearnedOk;
      hide Satisfiable;
      hide Evolves;
      hide Link;
      hide RootsHeld;
      hide Origin;
      hide LoadedHeld;
      hide Archive;
      ghost var s0 := St();
      var lit := trail[p];
      Scrambled(base, s0, p);
      OrdersWider(VarOf(lit));
      trail := trail[p := trail[|trail| - 1]][..|trail| - 1];
      ghost var trail1, level1 := trail + [lit], Place(St(), lit, Root).level;
      ghost var pending := Elems(trail[..p]);
      ScrambledTrail(s0.trail, p);
      UpSame(s0.store, imp, s0.trail, trail1);
      EvolvesAdded(cc, s0.store, s0.store);
      ok := AssertLiteral(lit, Root, pending);
      UpChain(cc, s0.store, s0.store, imp, s0.trail, trail1, trail, ok);
      if ok {
        assert trail[..p] == trail1[..p] == s0.trail[..p];
        RootsTransitive(s0.level, s0.trail, level1, trail1, level, trail);
      }
    }

    // --------------------------------------------------------- construction

    /** Loads a formula without duplicate literals, asserts its unit clauses and orders the variables left free. */
    constructor (vc: nat, clauses: seq<seq<int>>)
      requires forall c :: c in clauses ==> ClauseShape(vc, c)
      ensures Valid() && base == formula == clauses && this.vc == vc && unitConflicts == [] && solutionIndices == []
      ensures if unitContradiction || dLevel == 0 then UnitRefuted(clauses) else Settled(clauses, trail) && FirstLevel()
      ensures !unitContradiction && dLevel != 0 && (forall c :: c in clauses ==> |c| != 2) ==> !Listed(imp)
      ensures (forall c :: c in clauses ==> |c| >= 2) ==> !unitContradiction && dLevel == 1 && trail == []
    {
      hide RootState;
      hide Ready;
      hide Linked;
      hide Rested;
      hide ClauseShape;
      hide Valid;
      hide FirstLevel;
      hide Settled;
      hide UnitRefuted;
      hide Listed;
      hide Tallied;
      this.vc := vc;
      cc := 0;
      imp, slot := EmptyLists(vc), EmptySlots(vc);
      store := [];
      watch := EmptyLists(vc);
      value, level, ante := seq(vc + 1, i => 0), seq(vc + 1, i => 0), seq(vc + 1, i => Root);
      mark, mark2 := seq(vc + 1, i => false), seq(vc + 1, i => false);
      trail, dLevel, aLevel, learned := [], 1, 0, Unit(0);
      activity, phase, nConflicts, nextDecay := seq(vc + 1, i => Activity(0, 0)), seq(vc + 1, i => false), 0, HALFLIFE;
      varOrder, varPosition, nextVar, nextClause := [], seq(vc + 1, i => 0), 0, -1;
      unitConflicts, solutionIndices, unitContradiction, decisions := [], [], false, 0;
      formula, base, skipped, moved, ordered, loaded := clauses, clauses, {}, {}, {}, {};
      new;
      BlankStart();
      hide Blank;
      LoadAll(clauses);
    }

    lemma BlankStart()
      requires cc == 0 && imp == watch == EmptyLists(vc) && slot == EmptySlots(vc) && store == [] && trail == [] && dLevel == 1
      requires value == level == seq(vc + 1, i => 0) && ante == seq(vc + 1, i => Root) && mark == mark2 == phase == seq(vc + 1, i => false)
      requires activity == seq(vc + 1, i => Activity(0, 0)) && varOrder == [] && varPosition == seq(vc + 1, i => 0) && nextVar == 0
      requires nextClause == -1 && unitConflicts == [] && solutionIndices == [] && skipped == moved == ordered == {}
      ensures Blank()
    {
      hide RootState;
      hide Tallied;
      EmptySolver(base, St());
      TalliedNone(vc, activity);
    }

    /** Before the first search: the root level, with all consequences drawn, and an order sorted by score. */
    ghost predicate FirstLevel()
      reads this
    {
      && Ready() && dLevel == 1 && |store| == cc && nextClause == -1 && nextVar == 0 && skipped == {} && moved == {}
      && AllOrdered(vc, formula, value, varOrder) && SortedByScore(activity, varOrder) && Tallied(vc, formula, activity)
      && SignsSet(vc, activity, varOrder, phase) && ListsAre(vc, formula, imp) && NoSlots()
    }

    ghost predicate NoSlots()
      reads `slot
    {
      forall l :: LitOk(vc, l) ==> l in slot && slot[l] == 0
    }

    /** A solver before its formula is loaded. */
    ghost predicate Blank()
      reads this
    {
      && RootState(base, St()) && trail == [] && store == [] && cc == 0 && |mark2| == vc + 1 && AllClear(vc, mark)
      && Unordered() && nextClause == -1 && unitConflicts == [] && solutionIndices == []
      && (forall l :: l in imp ==> imp[l] == [])
      && Tallied(vc, [], activity)
    }

    ghost predicate Unordered()
      reads this
    {
      && varOrder == [] && ordered == {} && |varPosition| == vc + 1 && (forall v :: 0 <= v <= vc ==> varPosition[v] == 0) && nextVar == 0
      && skipped == {} && moved == {} && NoSlots() && |phase| == vc + 1
    }

    lemma UnorderedOk()
      requires Unordered() && |activity| == vc + 1
      ensures OrdersOk()
    {
    }

    method LoadAll(clauses: seq<seq<int>>)
      requires Blank() && (forall c :: c in clauses ==> ClauseShape(vc, c)) && base == formula == clauses && !unitContradiction
      modifies `trail, `value, `level, `ante, `mark, `activity, `varOrder, `varPosition, `moved, `nextVar, `store,
               `watch, `aLevel, `learned, `slot, `nConflicts, `dLevel, `phase, `cc, `imp, `unitContradiction,
               `ordered, `loaded
      ensures Valid()
      ensures if unitContradiction || dLevel == 0 then UnitRefuted(clauses) else Settled(clauses, trail) && FirstLevel()
      ensures !unitContradiction && dLevel != 0 && (forall c :: c in clauses ==> |c| != 2) ==> !Listed(imp)
      ensures (forall c :: c in clauses ==> |c| >= 2) ==> !unitContradiction && dLevel == 1 && trail == []
    {
      hide Inv;
      hide TrailOk;
      hide RootState;
      hide Archive;
      hide Link;
      hide RootsHeld;
      hide Loaded;
      hide ClauseShape;
      hide Satisfiable;
      hide AllOrdered;
      hide AllClear;
      hide Evolves;
      hide UnitRefuted;
      hide Settled;
      hide Tallied;
      hide Valid;
      hide FirstLevel;
      hide Listed;
      hide OrdersOk;
      hide ScoringOk;
      hide OrderOk;
      LoadClauses(clauses);
      if unitContradiction {
        UnorderedOk();
        var _ := AssertUnitClauses();
        Contradicted();
      } else {
        StartLoaded();
      }
    }

    /** The first search can start once all clauses are filed. */
    method StartLoaded()
      requires RootState(base, St()) && cc == |store| && store == base == formula && Loaded(store, imp, trail) && Tallied(vc, formula, activity)
      requires ListsAre(vc, formula, imp)
      requires |mark2| == vc + 1 && AllClear(vc, mark) && Unordered() && nextClause == -1 && !unitContradiction
      requires unitConflicts == [] && solutionIndices == [] && |activity| == vc + 1 && forall c :: c in formula ==> ClauseShape(vc, c)
      modifies `trail, `value, `level, `ante, `mark, `activity, `varOrder, `varPosition, `moved, `nextVar, `store,
               `watch, `aLevel, `learned, `slot, `nConflicts, `dLevel, `phase, `ordered, `loaded
      ensures Valid() && if dLevel == 0 then UnitRefuted(formula) else Settled(formula, trail) && FirstLevel()
      ensures (forall c :: c in formula ==> |c| != 2) ==> !Listed(imp)
      ensures old(trail) == [] ==> trail == [] && dLevel == 1
    {
      hide Inv;
      hide TrailOk;
      hide RootState;
      hide Archive;
      hide Link;
      hide RootsHeld;
      hide Loaded;
      hide ClauseShape;
      hide AllClear;
      hide Tallied;
      hide ListsAre;
      hide Valid;
      hide FirstLevel;
      hide Listed;
      hide OrdersOk;
      hide ScoringOk;
      hide OrderOk;
      hide UnitRefuted;
      hide Settled;
      LoadedLink(base, St());
      RootFacts(base, St());
      LoadedLists(store, imp, trail);
      UnorderedOk();
      OrdersOpen();
      StartAndOrder();
    }

    lemma Contradicted()
      requires unitContradiction && !Satisfiable(base)
      ensures Valid()
    {
      hide Satisfiable;
    }


    method StartAndOrder()
      requires RootState(base, St()) && OrdersOk() && Linked() && Stocked() && nextClause == |store| - cc - 1 == -1 && !unitContradiction
      requires store == formula && (forall c :: c in formula ==> ClauseShape(vc, c)) && Loaded(store, imp, trail) && Tallied(vc, formula, activity)
      requires ListsAre(vc, formula, imp) && NoSlots()
      requires solutionIndices == [] && unitConflicts == [] && skipped == {} && moved == {}
      modifies `trail, `value, `level, `ante, `mark, `activity, `varOrder, `varPosition, `moved, `nextVar, `store,
               `watch, `aLevel, `learned, `slot, `nConflicts, `dLevel, `phase, `ordered, `loaded
      ensures Valid() && if dLevel == 0 then UnitRefuted(formula) else Settled(formula, trail) && FirstLevel()
      ensures old(trail) == [] ==> St() == old(St())
    {
      hide Inv;
      hide RootState;
      hide Archive;
      hide Link;
      hide RootsHeld;
      hide Satisfiable;
      hide AllOrdered;
      hide AllClear;
      hide Evolves;
      hide TrailOk;
      hide ClauseShape;
      hide Loaded;
      hide UpStep;
      hide ScoringOk;
      hide UnitRefuted;
      hide Settled;
      hide Forced;
      hide Tallied;
      hide ListsAre;
      hide NoSlots;
      hide Origin;
      hide Copied;
      hide Stocked;
      hide OrdersOk;
      hide FirstLevel;
      hide Searching;
      ghost var store0, trail0 := store, trail;
      CopiedItself(formula, cc, store);
      StartSearch();
      LoadedUp(formula, imp, trail0, trail, dLevel != 0);
      CopiedKept(formula, cc, store0, store);
      if dLevel != 0 {
        OrderLoaded();
      }
    }

    method OrderLoaded()
      requires Ready() && Linked() && Stocked() && dLevel == 1 && nextClause == -1 && |store| == cc
      requires Copied(formula, cc, store) && (forall c :: c in formula ==> ClauseShape(vc, c)) && Tallied(vc, formula, activity)
      requires ListsAre(vc, formula, imp) && NoSlots()
      requires solutionIndices == [] && unitConflicts == [] && skipped == {} && moved == {} && forall l :: l in trail ==> Forced(formula, l)
      modifies `varOrder, `varPosition, `nextVar, `ordered, `phase, `loaded
      ensures Searching() && Settled(formula, trail) && FirstLevel()
    {
      hide Inv;
      hide Archive;
      hide Link;
      hide RootsHeld;
      hide AllOrdered;
      hide AllClear;
      hide TrailOk;
      hide ClauseShape;
      hide OrderOk;
      hide SkipOk;
      hide ScoringOk;
      hide OrdersOk;
      hide Settled;
      hide Forced;
      hide Tallied;
      hide ListsAre;
      hide NoSlots;
      hide SignsSet;
      hide Origin;
      hide LoadedHeld;
      hide Copied;
      hide SortedByScore;
      BusyFacts(base, St(), {}, 0, []);
      TrailFacts(vc, value, level, trail, dLevel);
      RootSettled(base, St(), formula, solutionIndices, unitConflicts);
      OrdersOpen();
      OrderVariables();
      OrdersOpen();
      OriginStarts(vc, formula, cc, store, value, trail, varOrder, ordered);
      loaded := Elems(trail);
      RootHeldLoaded(vc, value, level, trail);
    }

    method LoadClauses(clauses: seq<seq<int>>)
      requires Blank() && (forall c :: c in clauses ==> ClauseShape(vc, c)) && base == clauses && !unitContradiction
      modifies `trail, `value, `level, `ante, `store, `watch, `cc, `imp, `unitContradiction, `activity
      ensures RootState(base, St()) && cc == |store| && |activity| == vc + 1
      ensures if unitContradiction then !Satisfiable(base) && UnitRefuted(clauses)
              else store == clauses && Loaded(store, imp, trail) && Tallied(vc, clauses, activity) && ListsAre(vc, clauses, imp)
      ensures (forall c :: c in clauses ==> |c| >= 2) ==> !unitContradiction && trail == []
    {
      hide TrailOk;
      hide RootState;
      hide Archive;
      hide Loaded;
      hide ClauseShape;
      hide Satisfiable;
      hide AllClear;
      hide Tallied;
      hide ListsAre;
      hide NoSlots;
      hide UnitRefuted;
      LoadedNone(imp, trail);
      ListsStart(base, St());
      for i := 0 to |clauses|
        invariant cc == i && store == clauses[..i] && RootState(base, St()) && Loaded(store, imp, trail) && !unitContradiction
        invariant Tallied(vc, store, activity) && ListsAre(vc, store, imp)
        invariant (forall c :: c in clauses ==> |c| >= 2) ==> trail == []
      {
        assert clauses[..i + 1] == clauses[..i] + [clauses[i]];
        var ok := LoadClause(clauses[i]);
        if !ok {
          LoadRefuted(clauses, clauses[..i], imp, trail, clauses[i]);
          TalliedSize(vc, store, activity);
          unitContradiction := true;
          return;
        }
      }
      assert clauses[..|clauses|] == clauses;
      TalliedSize(vc, store, activity);
    }

    /** One clause of the formula: a unit is put on the stack, a binary clause goes to the implication lists, a longer one
        to two watch lists; false on an empty clause or a refuted unit. */
    method LoadClause(c: seq<int>) returns (ok: bool)
      requires RootState(base, St()) && cc == |store| && Loaded(store, imp, trail) && c in base && ClauseShape(vc, c) && Unordered()
      requires Tallied(vc, store, activity) && ListsAre(vc, store, imp)
      modifies `store, `cc, `imp, `watch, `value, `level, `ante, `trail, `activity
      ensures ok ==> cc == old(cc) + 1 && store == old(store) + [c] && RootState(base, St()) && Loaded(store, imp, trail)
      ensures ok ==> Tallied(vc, store, activity) && ListsAre(vc, store, imp)
      ensures !ok ==> !Satisfiable(base) && St() == old(St()) && activity == old(activity) && (c == [] || (|c| == 1 && -c[0] in trail))
      ensures |c| >= 2 ==> ok && trail == old(trail)
    {
      hide TrailOk;
      hide RootState;
      hide Archive;
      hide Loaded;
      hide ClauseShape;
      hide Satisfiable;
      hide Entails;
      hide ListShape;
      hide StoreSound;
      hide Tallied;
      hide ListsAre;
      hide NoSlots;
      hide OrdersOk;
      if c == [] {
        EmptyRefutes(base, c);
        return false;
      }
      BaseEntails(base, c);
      ClauseLits(vc, c);
      ok := true;
      if |c| == 1 {
        ghost var trail0 := trail;
        assert c == [c[0]];
        TalliedSize(vc, store, activity);
        UnorderedOk();
        ok := PlaceUnit(c[0]);
        if ok {
          RootShape(base, St());
          LoadShort(base, St(), c, imp);
          LoadedMore(store, imp, trail0, c, imp, trail);
          TalliedUnit(vc, store, c, activity);
          ListsOther(vc, store, imp, c);
          store, cc := store + [c], cc + 1;
        }
      } else {
        TallyClause(c);
        if |c| == 2 {
          LoadBinaryClause(c);
        } else {
          LoadLong(base, St(), c);
          ListsOther(vc, store, imp, c);
          LoadedMore(store, imp, trail, c, imp, trail);
          watch := watch[c[0] := watch[c[0]] + [|store|]];
          watch := watch[c[1] := watch[c[1]] + [|store|]];
          store, cc := store + [c], cc + 1;
        }
      }
    }

    /** Counts the literals of a clause that is being loaded. */
    method TallyClause(c: seq<int>)
      requires Tallied(vc, store, activity) && ClauseShape(vc, c) && |c| >= 2
      modifies `activity
      ensures Tallied(vc, store + [c], activity)
    {
      hide Bumped;
      for k := 0 to |c|
        invariant TalliedTo(vc, store, c[..k], activity)
      {
        TalliedLit(vc, store, c, k, activity);
        activity := Bumped(activity, c[k]);
      }
      assert c[..|c|] == c;
      TalliedClause(vc, store, c, activity);
    }

    method LoadBinaryClause(c: seq<int>)
      requires RootState(base, St()) && cc == |store| && Loaded(store, imp, trail) && ClauseShape(vc, c) && |c| == 2 && Entails(base, c)
      requires ListsAre(vc, store, imp)
      modifies `store, `cc, `imp
      ensures cc == old(cc) + 1 && store == old(store) + [c] && RootState(base, St()) && Loaded(store, imp, trail)
      ensures ListsAre(vc, store, imp)
    {
      hide TrailOk;
      hide RootState;
      hide Archive;
      hide Loaded;
      hide ClauseShape;
      hide Entails;
      hide Implies;
      LoadBinary(base, St(), c);
      ListsGrow(imp, c);
      ListsBinary(vc, store, imp, c);
      hide ListsAre;
      LoadedMore(store, imp, trail, c, imp[c[0] := imp[c[0]] + [c[1]]][c[1] := imp[c[1]] + [c[0]]], trail);
      imp := imp[c[0] := imp[c[0]] + [c[1]]];
      imp := imp[c[1] := imp[c[1]] + [c[0]]];
      store, cc := store + [c], cc + 1;
    }

    /** The initial order: the free variables of positive score, sorted by score, those of equal score in any order. Each prefers the
        sign it has more often. */
    /** Variable v takes its place in the order, and the sign that occurs more often. */
    method InsertVariable(v: nat)
      requires 1 <= v <= vc && |phase| == vc + 1 && |activity| == vc + 1 && NoDuplicates(varOrder) && v !in varOrder
      requires SortedByScore(activity, varOrder) && SignsSet(vc, activity, varOrder, phase)
      modifies `varOrder, `phase
      ensures NoDuplicates(varOrder) && |phase| == vc + 1 && forall u :: u in varOrder <==> u in old(varOrder) || u == v
      ensures SortedByScore(activity, varOrder) && SignsSet(vc, activity, varOrder, phase)
    {
      hide ScoreOf;
      hide SignsSet;
      hide SortedByScore;
      SomeFit(activity, varOrder, v);
      var q :| 0 <= q <= |varOrder| && FitsAt(activity, varOrder, q, v);
      InsertDistinct(varOrder, q, v);
      InsertSorted(activity, varOrder, q, v);
      SignsMore(vc, activity, varOrder, phase, q, v);
      phase := phase[v := activity[v].pos > activity[v].neg];
      varOrder := varOrder[..q] + [v] + varOrder[q..];
    }

    method OrderVariables()
      requires |value| == |phase| == vc + 1 && Tallied(vc, formula, activity) && ScoringOk(vc, imp, slot, activity, phase, moved)
      requires skipped == {} && moved == {}
      modifies `varOrder, `varPosition, `nextVar, `ordered, `phase
      ensures OrdersOk() && nextVar == 0 && AllOrdered(vc, formula, value, varOrder) && SortedByScore(activity, varOrder)
      ensures ordered == (set v | v in varOrder) && SignsSet(vc, activity, varOrder, phase)
    {
      hide ScoringOk;
      hide Tallied;
      hide Scored;
      hide ScoreOf;
      hide SignsSet;
      ghost var phase0 := phase;
      ScoringSizes(vc, imp, slot, activity, phase, moved);
      SignsNone(vc, activity, phase);
      nextVar := 0;
      varOrder, varPosition := [], seq(vc + 1, i => 0);
      for v := 1 to vc + 1
        invariant NoDuplicates(varOrder) && nextVar == 0 && varPosition == seq(vc + 1, i => 0) && |phase| == vc + 1
        invariant SortedByScore(activity, varOrder) && SignsSet(vc, activity, varOrder, phase)
        invariant forall u :: u in varOrder <==> 1 <= u < v && value[u] == 0 && Scored(formula, u)
      {
        ScoredPositive(vc, formula, activity, v);
        if value[v] == 0 && ScoreOf(activity, v) > 0 {
          InsertVariable(v);
        }
      }
      ScoringKept(vc, imp, slot, activity, phase0, moved, activity, phase, moved);
      assert forall i :: 0 <= i < |varOrder| ==> varOrder[i] in varOrder;
      PlaceVariables();
      ordered := set v | v in varOrder;
      assert skipped + moved == {};
    }

    /** Notes the place of every variable in the order. */
    method PlaceVariables()
      requires NoDuplicates(varOrder) && (forall i :: 0 <= i < |varOrder| ==> 1 <= varOrder[i] <= vc) && varPosition == seq(vc + 1, i => 0)
      modifies `varPosition
      ensures |varPosition| == vc + 1 && forall i :: 0 <= i < |varOrder| ==> varPosition[varOrder[i]] == i
      ensures forall v :: 0 <= v <= vc && v !in varOrder ==> varPosition[v] == 0
    {
      for i := 0 to |varOrder|
        invariant |varPosition| == vc + 1
        invariant forall j :: 0 <= j < i ==> varPosition[varOrder[j]] == j
        invariant forall v :: 0 <= v <= vc && v !in varOrder ==> varPosition[v] == 0
      {
        varPosition := varPosition[varOrder[i] := i];
      }
    }
  }
}
