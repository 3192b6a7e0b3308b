/** learnClause of dagster/CnfManager.cpp as a function of the state in which the conflict occurs: which literals are marked, where the
    analysis stops, what is scored on the way, and which clause is learned. */
module Resolution {
  import opened Logic
  import opened Cdcl
  import opened SolverSteps

  /** The marks, the literals marked below the current level in the order in which they were met, and the number of marked literals of
      the current level. */
  datatype Marks = Marks(mark: seq<bool>, tmp: seq<int>, n: nat)

  /** Where the analysis stops: the UIP, and what it leaves, left being the height of the stack. */
  datatype Uip = Uip(lit: int, marks: Marks, rank: Ranking, nextVar: nat, left: nat)

  function Flagged(mark: seq<bool>, v: nat, b: bool): seq<bool> {
    if v < |mark| then mark[v := b] else mark
  }

  /** A literal is marked unless it is already, or is one of the root level. */
  function MarkedOne(level: seq<nat>, d: nat, a: Marks, x: int): Marks {
    if Marked(a.mark, x) || Lev(level, x) == 1 then a
    else if Lev(level, x) < d then Marks(Flagged(a.mark, VarOf(x), true), a.tmp + [x], a.n)
    else Marks(Flagged(a.mark, VarOf(x), true), a.tmp, a.n + 1)
  }

  function MarkedAll(level: seq<nat>, d: nat, a: Marks, c: seq<int>): Marks
    decreases |c|
  {
    if c == [] then a else MarkedOne(level, d, MarkedAll(level, d, a, c[..|c| - 1]), c[|c| - 1])
  }

  function Lowered(varPosition: seq<nat>, nextVar: nat, v: nat): (r: nat)
    ensures r <= nextVar
  {
    if v < |varPosition| && varPosition[v] < nextVar then varPosition[v] else nextVar
  }

  /** The stack is popped until the last marked literal of the current level; each marked one before is replaced by its antecedent, and
      each marked one with an antecedent raises the scores of the word the antecedent starts. */
  ghost function Analysed(store: seq<seq<int>>, level: seq<nat>, ante: seq<Ante>, slot: map<int, int>, d: nat, trail: seq<int>,
                          a: Marks, r: Ranking, nextVar: nat): Uip
    decreases |trail|
  {
    if trail == [] then Uip(0, a, r, nextVar, 0)
    else
      var l, below := trail[|trail| - 1], trail[..|trail| - 1];
      if !Marked(a.mark, l) then Analysed(store, level, ante, slot, d, below, a, r, Lowered(r.varPosition, nextVar, VarOf(l)))
      else
        var mark, r' := Flagged(a.mark, VarOf(l), false), Rated(r, ScoredLits(store, slot, AnteOf(ante, l)));
        var next := Lowered(r'.varPosition, nextVar, VarOf(l));
        if a.n <= 1 then Uip(l, Marks(mark, a.tmp, 0), r', next, |below|)
        else Analysed(store, level, ante, slot, d, below, MarkedAll(level, d, Marks(mark, a.tmp, a.n - 1), AnteLits(store, AnteOf(ante, l))), r', next)
  }

  /** What the analysis does with a marked literal on top of the stack. */
  ghost function AnalysisStep(store: seq<seq<int>>, level: seq<nat>, ante: seq<Ante>, slot: map<int, int>, d: nat,
                              trail: seq<int>,
                              a: Marks, r: Ranking, nextVar: nat): (Marks, Ranking, nat)
    requires trail != []
  {
    var l := trail[|trail| - 1];
    var mark, r' := Flagged(a.mark, VarOf(l), false), Rated(r, ScoredLits(store, slot, AnteOf(ante, l)));
    (if a.n <= 1 then Marks(mark, a.tmp, 0) else MarkedAll(level, d, Marks(mark, a.tmp, a.n - 1), AnteLits(store, AnteOf(ante, l))),
     r', Lowered(r'.varPosition, nextVar, VarOf(l)))
  }

  lemma AnalysedStep(store: seq<seq<int>>, level: seq<nat>, ante: seq<Ante>, slot: map<int, int>, d: nat, trail: seq<int>,
                     a: Marks, r: Ranking, nextVar: nat)
    requires trail != []
    ensures var l, below := trail[|trail| - 1], trail[..|trail| - 1];
      Analysed(store, level, ante, slot, d, trail, a, r, nextVar) ==
      if !Marked(a.mark, l) then Analysed(store, level, ante, slot, d, below, a, r, Lowered(r.varPosition, nextVar, VarOf(l)))
      else
        var (a', r', next) := AnalysisStep(store, level, ante, slot, d, trail, a, r, nextVar);
        if a.n <= 1 then Uip(l, a', r', next, |below|) else Analysed(store, level, ante, slot, d, below, a', r', next)
  {
  }

  lemma RatedNone(store: seq<seq<int>>, slot: map<int, int>, r: Ranking)
    ensures ScoredLits(store, slot, Decided) == [] && Rated(r, []) == r
  {
  }

  /** The literals of tmp that are not redundant, the first of the highest level in front, and that level. */
  function Minimised(store: seq<seq<int>>, level: seq<nat>, ante: seq<Ante>, mark: seq<bool>, tmp: seq<int>): (seq<int>, nat)
    decreases |tmp|
  {
    if tmp == [] then ([], 1)
    else
      var (q, high) := Minimised(store, level, ante, mark, tmp[..|tmp| - 1]);
      var x := tmp[|tmp| - 1];
      if Redundant(store, ante, mark, x) then (q, high)
      else if Lev(level, x) > high then ([x] + q, Lev(level, x))
      else (q + [x], high)
  }

  lemma {:induction false} MinimisedKeeps(s: State, mark: seq<bool>, tmp: seq<int>)
    ensures Kept(s, mark, tmp, Minimised(s.store, s.level, s.ante, mark, tmp).0)
  {
    hide Redundant;
    if tmp != [] {
      MinimisedKeeps(s, mark, tmp[..|tmp| - 1]);
      assert tmp == tmp[..|tmp| - 1] + [tmp[|tmp| - 1]];
    }
  }

  /** The analysis of the falsified clause c, started with the scores r. */
  ghost function AnalysisOf(s: State, slot: map<int, int>, c: seq<int>, r: Ranking, nextVar: nat): Uip {
    Analysed(s.store, s.level, s.ante, slot, s.dLevel, s.trail, MarkedAll(s.level, s.dLevel, Marks(seq(s.vc + 1, i => false), [], 0), c),
             Rated(r, c), nextVar)
  }

  /** What is learned from the marks: the negated UIP with the literals that are not redundant, kept aside when it is a unit. */
  ghost predicate Concludes(store: seq<seq<int>>, level: seq<nat>, ante: seq<Ante>, mark: seq<bool>, tmp: seq<int>, uip: int,
                            store': seq<seq<int>>, aLevel: nat, learned: Learned) {
    var (q, high) := Minimised(store, level, ante, mark, tmp);
    && aLevel == high
    && if q == [] then store' == store && learned == Unit(-uip)
       else store' == store + [Arranged(q + [-uip])] && learned == Clause(|store|)
  }

  /** learnClause on c, above the root level: from state s to state t, the scores, the place of the next scan, the level to return to and
      the clause learned. */
  ghost predicate Learns(s: State, slot: map<int, int>, c: seq<int>, r: Ranking, nextVar: nat,
                         t: State, r': Ranking, nextVar': nat, aLevel: nat, learned: Learned) {
    var u := AnalysisOf(s, slot, c, r, nextVar);
    && u.left <= |s.trail| && t.trail == s.trail[..u.left] && r' == u.rank && nextVar' == u.nextVar
    && Concludes(s.store, s.level, s.ante, u.marks.mark, u.marks.tmp, u.lit, t.store, aLevel, learned)
  }

  lemma AnalysisIntro(s: State, slot: map<int, int>, c: seq<int>, r: Ranking, nextVar: nat, mark: seq<bool>)
    requires AllClear(s.vc, mark)
    ensures AnalysisOf(s, slot, c, r, nextVar) ==
      Analysed(s.store, s.level, s.ante, slot, s.dLevel, s.trail, MarkedAll(s.level, s.dLevel, Marks(mark, [], 0), c), Rated(r, c), nextVar)
  {
    hide Analysed;
    hide MarkedAll;
    hide Rated;
    assert mark == seq(s.vc + 1, i => false);
  }

  lemma LearnsIntro(s: State, slot: map<int, int>, c: seq<int>, r: Ranking, nextVar: nat, u: Uip, t: State,
                    aLevel: nat, learned: Learned)
    requires AnalysisOf(s, slot, c, r, nextVar) == u && u.left == |t.trail| && t.trail <= s.trail
    requires Concludes(s.store, s.level, s.ante, u.marks.mark, u.marks.tmp, u.lit, t.store, aLevel, learned)
    ensures Learns(s, slot, c, r, nextVar, t, u.rank, u.nextVar, aLevel, learned)
  {
    hide AnalysisOf;
    hide Concludes;
  }

  /** The same at any level: at the root level nothing is learned. */
  ghost predicate LearnsAt(s: State, slot: map<int, int>, c: seq<int>, r: Ranking, nextVar: nat,
                           t: State, r': Ranking, nextVar': nat, aLevel: nat, learned: Learned) {
    if s.dLevel <= 1 then t == s && r' == r && nextVar' == nextVar && aLevel == 0
    else Learns(s, slot, c, r, nextVar, t, r', nextVar', aLevel, learned)
  }

  /** Every literal of the learned clause but the negated UIP was decided, or implied by a clause with an unmarked literal; and all such
      literals met by the analysis are in it. */
  lemma LearnsIrredundant(s: State, slot: map<int, int>, c: seq<int>, r: Ranking, nextVar: nat,
                          t: State, r': Ranking, nextVar': nat, aLevel: nat, id: nat)
    requires Learns(s, slot, c, r, nextVar, t, r', nextVar', aLevel, Clause(id))
    ensures id == |s.store| < |t.store|
    ensures var u := AnalysisOf(s, slot, c, r, nextVar);
      forall x :: x in t.store[id] <==> x == -u.lit || (x in u.marks.tmp && !Redundant(s.store, s.ante, u.marks.mark, x))
  {
    var u := AnalysisOf(s, slot, c, r, nextVar);
    hide AnalysisOf;
    hide Redundant;
    var q := Minimised(s.store, s.level, s.ante, u.marks.mark, u.marks.tmp).0;
    MinimisedKeeps(s, u.marks.mark, u.marks.tmp);
    ArrangedMembers(q + [-u.lit]);
  }

  lemma ArrangedMembers(lits: seq<int>)
    requires lits != []
    ensures forall x :: x in Arranged(lits) <==> x in lits
  {
    if |lits| > 1 {
      assert lits == [lits[0]] + lits[1..|lits| - 1] + [lits[|lits| - 1]];
    }
  }

  // ------------------------------------------------------------ backtracking

  /** The sign of l is remembered, unless l was set at the last level d. */
  function Remembered(level: seq<nat>, d: nat, phase: seq<bool>, l: int): seq<bool> {
    if Lev(level, l) < d then Flagged(phase, VarOf(l), l > 0) else phase
  }

  /** backtrack to level b: the stack, the remembered signs and the place of the next scan. */
  function Unstacked(level: seq<nat>, d: nat, b: nat, varPosition: seq<nat>, trail: seq<int>, phase: seq<bool>,
                     nextVar: nat): (seq<int>, seq<bool>, nat)
    decreases |trail|
  {
    if trail == [] || Lev(level, trail[|trail| - 1]) <= b then (trail, phase, nextVar)
    else
      var l := trail[|trail| - 1];
      Unstacked(level, d, b, varPosition, trail[..|trail| - 1], Remembered(level, d, phase, l), Lowered(varPosition, nextVar, VarOf(l)))
  }

  function Returned(level: seq<nat>, d: nat, b: nat, varPosition: seq<nat>, trail: seq<int>, phase: seq<bool>,
                    nextVar: nat): (seq<bool>, nat) {
    (Unstacked(level, d, b, varPosition, trail, phase, nextVar).1, Unstacked(level, d, b, varPosition, trail, phase, nextVar).2)
  }

  /** Back from d to level b, which is 1 or high. */
  ghost predicate ReturnedTo(level: seq<nat>, d: nat, high: nat, varPosition: seq<nat>, trail: seq<int>,
                             phase: seq<bool>, nextVar: nat,
                             phase': seq<bool>, nextVar': nat) {
    || (phase', nextVar') == Returned(level, d, 1, varPosition, trail, phase, nextVar)
    || (phase', nextVar') == Returned(level, d, high, varPosition, trail, phase, nextVar)
  }

  lemma UnstackedStep(level: seq<nat>, d: nat, b: nat, varPosition: seq<nat>, trail: seq<int>, phase: seq<bool>, nextVar: nat)
    requires trail != [] && Lev(level, trail[|trail| - 1]) > b
    ensures var l := trail[|trail| - 1];
      Unstacked(level, d, b, varPosition, trail, phase, nextVar) ==
      Unstacked(level, d, b, varPosition, trail[..|trail| - 1], Remembered(level, d, phase, l), Lowered(varPosition, nextVar, VarOf(l)))
  {
  }

  lemma UnstackedEnd(level: seq<nat>, d: nat, b: nat, varPosition: seq<nat>, trail: seq<int>, phase: seq<bool>, nextVar: nat)
    requires trail == [] || Lev(level, trail[|trail| - 1]) <= b
    ensures Unstacked(level, d, b, varPosition, trail, phase, nextVar) == (trail, phase, nextVar)
  {
  }

  /** The variables of a stack differ. */
  ghost predicate DistinctVars(trail: seq<int>) {
    forall i, j :: 0 <= i < j < |trail| ==> VarOf(trail[i]) != VarOf(trail[j])
  }

  /** What backtracking leaves: a prefix of the stack, up to the last literal of level b or below ... */
  lemma {:induction false} UnstackedPrefix(level: seq<nat>, d: nat, b: nat, varPosition: seq<nat>, trail: seq<int>,
                                           phase: seq<bool>, nextVar: nat)
    ensures var t := Unstacked(level, d, b, varPosition, trail, phase, nextVar).0;
      t <= trail && (t != [] ==> Lev(level, t[|t| - 1]) <= b) && forall i :: |t| <= i < |trail| ==> Lev(level, trail[i]) > b
    decreases |trail|
  {
    if trail != [] && Lev(level, trail[|trail| - 1]) > b {
      var l, below := trail[|trail| - 1], trail[..|trail| - 1];
      UnstackedPrefix(level, d, b, varPosition, below, Remembered(level, d, phase, l), Lowered(varPosition, nextVar, VarOf(l)));
      hide Unstacked;
    }
  }

  /** ... the signs of the literals removed, those of the last level excepted ... */
  lemma {:induction false} UnstackedSigns(level: seq<nat>, d: nat, b: nat, varPosition: seq<nat>, trail: seq<int>,
                                          phase: seq<bool>, nextVar: nat, v: nat)
    requires DistinctVars(trail) && v < |phase|
    ensures var (t, p, _) := Unstacked(level, d, b, varPosition, trail, phase, nextVar);
      && t <= trail && |p| == |phase|
      && (forall i :: |t| <= i < |trail| && VarOf(trail[i]) == v ==> p[v] == if Lev(level, trail[i]) < d then trail[i] > 0 else phase[v])
      && ((forall i :: |t| <= i < |trail| ==> VarOf(trail[i]) != v) ==> p[v] == phase[v])
    decreases |trail|
  {
    if trail != [] && Lev(level, trail[|trail| - 1]) > b {
      var l, below := trail[|trail| - 1], trail[..|trail| - 1];
      UnstackedSigns(level, d, b, varPosition, below, Remembered(level, d, phase, l), Lowered(varPosition, nextVar, VarOf(l)), v);
      UnstackedStep(level, d, b, varPosition, trail, phase, nextVar);
      hide Unstacked;
    }
  }

  /** ... and a next scan that starts no later than at any variable that became free, and not earlier without cause. */
  lemma {:induction false} UnstackedScan(level: seq<nat>, d: nat, b: nat, varPosition: seq<nat>, trail: seq<int>,
                                         phase: seq<bool>, nextVar: nat)
    ensures var (t, _, n) := Unstacked(level, d, b, varPosition, trail, phase, nextVar);
      && t <= trail && n <= nextVar
      && (forall i :: |t| <= i < |trail| && VarOf(trail[i]) < |varPosition| ==> n <= varPosition[VarOf(trail[i])])
      && (n < nextVar ==> exists i :: |t| <= i < |trail| && VarOf(trail[i]) < |varPosition| && n == varPosition[VarOf(trail[i])])
    decreases |trail|
  {
    if trail != [] && Lev(level, trail[|trail| - 1]) > b {
      var l, below := trail[|trail| - 1], trail[..|trail| - 1];
      UnstackedScan(level, d, b, varPosition, below, Remembered(level, d, phase, l), Lowered(varPosition, nextVar, VarOf(l)));
      UnstackedStep(level, d, b, varPosition, trail, phase, nextVar);
      hide Unstacked;
      assert forall i :: 0 <= i < |below| ==> below[i] == trail[i];
      assert trail[|below|] == l;
    }
  }

  /** The top literal is true: its sign is that of its value. */
  lemma TopSigned(s: State)
    requires TrailOk(s.vc, s.value, s.level, s.trail, s.dLevel) && |s.value| == |s.level| == s.vc + 1 && s.trail != []
    ensures var l := s.trail[|s.trail| - 1]; VarOf(l) <= s.vc && (s.value[VarOf(l)] == 1 <==> l > 0) && Lev(s.level, l) == s.level[VarOf(l)]
  {
    var l := s.trail[|s.trail| - 1];
    assert LitOk(s.vc, l) && Val(s.value, l) == 1;
  }
}
