/** The steps of the solver on values: what propagation, learning, decisions, solutions and loading do to the state described in
    Cdcl, and what the bookkeeping of SatSolver.dfy needs. */
module SolverSteps {
  import opened Logic
  import opened Cdcl

  /** conflictClause: the asserting clause, which is not stored when it is a unit. */
  datatype Learned = Unit(lit: int) | Clause(id: nat)

  /** The codes run returns: 0, 1, 2, or the exception it throws when the solution fails its check. */
  datatype RunResult = Unsat | Sat | Paused | Inconsistent

  ghost predicate Same(c: seq<int>, d: seq<int>) {
    forall x :: x in c <==> x in d
  }

  /** Stored clauses are only ever permuted, and unit and binary clauses of the formula not even that. */
  ghost predicate Evolves(cc: nat, store: seq<seq<int>>, store': seq<seq<int>>) {
    && |store| <= |store'|
    && forall id :: 0 <= id < |store| ==>
         |store[id]| == |store'[id]| && Same(store[id], store'[id]) && (id < cc && |store[id]| < 3 ==> store'[id] == store[id])
  }

  lemma EvolvesTransitive(cc: nat, a: seq<seq<int>>, b: seq<seq<int>>, c: seq<seq<int>>)
    requires Evolves(cc, a, b) && Evolves(cc, b, c)
    ensures Evolves(cc, a, c)
  {
  }

  lemma EvolvesAdded(cc: nat, store: seq<seq<int>>, store': seq<seq<int>>)
    requires store <= store'
    ensures Evolves(cc, store, store')
  {
  }

  lemma EvolvesSwap(cc: nat, store: seq<seq<int>>, id: nat, i: nat, j: nat)
    requires Watched(cc, store, id) && i < |store[id]| && j < |store[id]|
    ensures Evolves(cc, store, store[id := Swap(store[id], i, j)])
  {
    SwapMembers(store[id], i, j);
  }

  /** varOrder holds the variables of ordered; varPosition is its inverse, and 0 outside it. */
  ghost predicate OrderOk(vc: nat, varOrder: seq<nat>, varPosition: seq<nat>, ordered: set<nat>) {
    && |varPosition| == vc + 1
    && (forall v :: v in varOrder <==> v in ordered)
    && (forall i :: 0 <= i < |varOrder| ==> 1 <= varOrder[i] <= vc && varPosition[varOrder[i]] == i)
    && (forall v :: 0 <= v <= vc && v !in varOrder ==> varPosition[v] == 0)
  }

  /** A free variable before the starting point of the next scan is one the solver has skipped. */
  ghost predicate SkipOk(value: seq<int>, varOrder: seq<nat>, nextVar: nat, skipped: set<nat>) {
    nextVar <= |varOrder| && forall i :: 0 <= i < nextVar && Val(value, varOrder[i]) == 0 ==> varOrder[i] in skipped
  }

  // ------------------------------------------------------------- scores

  /** How often the literals of a variable have been met, halved at every decay. */
  datatype Activity = Activity(neg: nat, pos: nat)

  datatype Ranking = Ranking(activity: seq<Activity>, varOrder: seq<nat>, varPosition: seq<nat>)

  function ScoreOf(activity: seq<Activity>, v: nat): nat {
    if v < |activity| then activity[v].neg + activity[v].pos else 0
  }

  function Bumped(activity: seq<Activity>, l: int): seq<Activity>
    requires VarOf(l) < |activity|
  {
    var a := activity[VarOf(l)];
    activity[VarOf(l) := if l > 0 then a.(pos := a.pos + 1) else a.(neg := a.neg + 1)]
  }

  function Halved(activity: seq<Activity>): seq<Activity> {
    seq(|activity|, i requires 0 <= i < |activity| => if i == 0 then activity[0] else Activity(activity[i].neg / 2, activity[i].pos / 2))
  }

  /** The search of a promotion for a place, first in strides of 0x400 to the left ... */
  function Stride(activity: seq<Activity>, varOrder: seq<nat>, score: nat, q: int): (r: int)
    requires q < |varOrder|
    ensures -0x400 <= r <= q || r == q
    decreases q + 0x400
  {
    if q < 0 || ScoreOf(activity, varOrder[q]) >= score then q else Stride(activity, varOrder, score, q - 0x400)
  }

  /** ... and then in halved steps. */
  function Refine(activity: seq<Activity>, varOrder: seq<nat>, score: nat, q: nat, step: nat): (r: nat)
    requires q < |varOrder|
    ensures r <= q
    decreases step
  {
    if step == 0 then q
    else Refine(activity, varOrder, score, if q >= step && ScoreOf(activity, varOrder[q - step]) < score then q - step else q, step / 2)
  }

  function PlaceFor(activity: seq<Activity>, varOrder: seq<nat>, score: nat, it: nat): (q: nat)
    requires it < |varOrder|
    ensures q <= it
  {
    Refine(activity, varOrder, score, Stride(activity, varOrder, score, it - 0x400) + 0x400, 0x200)
  }

  ghost predicate RankShape(r: Ranking) {
    && |r.activity| == |r.varPosition|
    && (forall v :: 0 <= v < |r.varPosition| ==> r.varPosition[v] == 0 || r.varPosition[v] < |r.varOrder|)
    && forall i :: 0 <= i < |r.varOrder| ==> r.varOrder[i] < |r.varPosition|
  }

  /** Variable v, at position it, and the variable at position q change places. */
  function Swapped(r: Ranking, v: nat, it: nat, q: nat): Ranking
    requires it < |r.varOrder| && q < |r.varOrder| && v < |r.varPosition| && r.varOrder[q] < |r.varPosition|
  {
    var u := r.varOrder[q];
    r.(varOrder := r.varOrder[it := u][q := v], varPosition := r.varPosition[v := q][u := it])
  }

  lemma SwappedShape(r: Ranking, v: nat, it: nat, q: nat)
    requires RankShape(r) && v < |r.varPosition| && q <= it < |r.varOrder|
    ensures RankShape(Swapped(r, v, it, q)) && Swapped(r, v, it, q).activity == r.activity
  {
  }

  /** One literal's share of updateScores. */
  ghost function RescoredLit(r: Ranking, l: int): (r': Ranking)
    requires RankShape(r) && VarOf(l) < |r.activity|
    ensures RankShape(r') && |r'.activity| == |r.activity|
  {
    var v, b := VarOf(l), r.(activity := Bumped(r.activity, l));
    var it := r.varPosition[v];
    if it == 0 || ScoreOf(b.activity, v) <= ScoreOf(b.activity, r.varOrder[it - 1]) then b
    else
      var q := PlaceFor(b.activity, b.varOrder, ScoreOf(b.activity, v), it);
      SwappedShape(b, v, it, q);
      Swapped(b, v, it, q)
  }

  /** updateScores on the word c. */
  ghost function Rescored(r: Ranking, c: seq<int>): (r': Ranking)
    requires RankShape(r) && forall k :: 0 <= k < |c| ==> VarOf(c[k]) < |r.activity|
    ensures RankShape(r') && |r'.activity| == |r.activity|
    decreases |c|
  {
    if c == [] then r else RescoredLit(Rescored(r, c[..|c| - 1]), c[|c| - 1])
  }

  ghost predicate RescoredBy(r: Ranking, c: seq<int>, r': Ranking) {
    RankShape(r) && (forall k :: 0 <= k < |c| ==> VarOf(c[k]) < |r.activity|) && r' == Rescored(r, c)
  }

  /** The scores after the word c, if all of its variables have scores. */
  ghost function Rated(r: Ranking, c: seq<int>): Ranking {
    if RankShape(r) && forall k :: 0 <= k < |c| ==> VarOf(c[k]) < |r.activity| then Rescored(r, c) else r
  }

  lemma RatedBy(r: Ranking, c: seq<int>, r': Ranking)
    requires RescoredBy(r, c, r')
    ensures r' == Rated(r, c)
  {
    hide Rescored;
  }

  lemma RankedBy(vc: nat, r: Ranking, ordered: set<nat>)
    requires OrderOk(vc, r.varOrder, r.varPosition, ordered) && |r.activity| == vc + 1
    ensures RankShape(r)
  {
    forall v | 0 <= v < |r.varPosition| ensures r.varPosition[v] == 0 || r.varPosition[v] < |r.varOrder| {
      if v in r.varOrder {
        var i :| 0 <= i < |r.varOrder| && r.varOrder[i] == v;
      }
    }
  }

  ghost predicate SortedByScore(activity: seq<Activity>, varOrder: seq<nat>) {
    forall i, j :: 0 <= i <= j < |varOrder| ==> ScoreOf(activity, varOrder[i]) >= ScoreOf(activity, varOrder[j])
  }

  ghost predicate PowerOfTwo(n: nat) {
    n == 1 || (n > 0 && n % 2 == 0 && PowerOfTwo(n / 2))
  }

  /** first is the first place of the order up to it whose variable has a lower score. */
  ghost predicate FirstLower(activity: seq<Activity>, varOrder: seq<nat>, score: nat, it: nat, first: nat)
    requires it < |varOrder|
  {
    first <= it && forall i :: 0 <= i < it ==> (ScoreOf(activity, varOrder[i]) < score <==> i >= first)
  }

  lemma {:induction false} RefineFinds(activity: seq<Activity>, varOrder: seq<nat>, score: nat, it: nat, q: nat,
                                       step: nat, first: nat)
    requires it < |varOrder| && first <= q <= it && FirstLower(activity, varOrder, score, it, first)
    requires if step == 0 then q == first else PowerOfTwo(step) && q - first < 2 * step
    ensures Refine(activity, varOrder, score, q, step) == first
    decreases step
  {
    if step > 0 {
      var down := q >= step && ScoreOf(activity, varOrder[q - step]) < score;
      RefineFinds(activity, varOrder, score, it, if down then q - step else q, step / 2, first);
    }
  }

  lemma {:induction false} StrideFinds(activity: seq<Activity>, varOrder: seq<nat>, score: nat, it: nat, q: int, first: nat)
    requires it < |varOrder| && FirstLower(activity, varOrder, score, it, first) && q < it && first <= q + 0x400 <= it
    ensures var r := Stride(activity, varOrder, score, q); first <= r + 0x400 <= it && r < first
    decreases q + 0x400
  {
    if q >= 0 && ScoreOf(activity, varOrder[q]) < score {
      StrideFinds(activity, varOrder, score, it, q - 0x400, first);
    }
  }

  lemma StepPower()
    ensures PowerOfTwo(0x200)
  {
    assert PowerOfTwo(0x8);
    assert PowerOfTwo(0x40);
  }

  /** The search of a promotion finds the first variable with a lower score, if the order is sorted before the one promoted. */
  lemma PlaceIsFirst(activity: seq<Activity>, varOrder: seq<nat>, score: nat, it: nat, first: nat)
    requires first <= it < |varOrder| && FirstLower(activity, varOrder, score, it, first)
    ensures PlaceFor(activity, varOrder, score, it) == first
  {
    hide Stride;
    hide Refine;
    hide FirstLower;
    StrideFinds(activity, varOrder, score, it, it - 0x400, first);
    StepPower();
    hide PowerOfTwo;
    RefineFinds(activity, varOrder, score, it, Stride(activity, varOrder, score, it - 0x400) + 0x400, 0x200, first);
  }

  /** updateScores keeps the order sorted by score. */
  lemma {:induction false} RescoredSorted(vc: nat, r: Ranking, ordered: set<nat>, c: seq<int>)
    requires RankShape(r) && forall k :: 0 <= k < |c| ==> VarOf(c[k]) < |r.activity|
    requires OrderOk(vc, r.varOrder, r.varPosition, ordered) && SortedByScore(r.activity, r.varOrder)
    ensures var r' := Rescored(r, c); OrderOk(vc, r'.varOrder, r'.varPosition, ordered) && SortedByScore(r'.activity, r'.varOrder)
    decreases |c|
  {
    hide OrderOk;
    hide SortedByScore;
    if c != [] {
      RescoredSorted(vc, r, ordered, c[..|c| - 1]);
      RescoredLitSorted(vc, Rescored(r, c[..|c| - 1]), ordered, c[|c| - 1]);
    }
  }

  lemma RescoredLitSorted(vc: nat, r: Ranking, ordered: set<nat>, l: int)
    requires RankShape(r) && VarOf(l) < |r.activity| && OrderOk(vc, r.varOrder, r.varPosition, ordered) && SortedByScore(r.activity, r.varOrder)
    ensures var r' := RescoredLit(r, l); OrderOk(vc, r'.varOrder, r'.varPosition, ordered) && SortedByScore(r'.activity, r'.varOrder)
  {
    hide PlaceFor;
    var v, b := VarOf(l), r.(activity := Bumped(r.activity, l));
    var it, score := r.varPosition[v], ScoreOf(b.activity, v);
    BumpedScores(r.activity, l);
    if it != 0 && score > ScoreOf(b.activity, r.varOrder[it - 1]) {
      InOrder(vc, r, ordered, v);
      BumpedSorted(vc, r, ordered, b.activity, it);
      hide ScoreOf;
      hide Bumped;
      var first := FirstBelow(b.activity, b.varOrder, score, it);
      PlaceIsFirst(b.activity, b.varOrder, score, it, first);
      SwappedOrder(vc, b, ordered, v, it, first);
      SwappedSorted(b, v, it, first);
    } else {
      BumpedStays(vc, r, ordered, b.activity, l);
    }
  }

  lemma BumpedScores(activity: seq<Activity>, l: int)
    requires VarOf(l) < |activity|
    ensures |Bumped(activity, l)| == |activity|
    ensures forall u :: ScoreOf(Bumped(activity, l), u) == ScoreOf(activity, u) + if u == VarOf(l) then 1 else 0
  {
  }

  lemma InOrder(vc: nat, r: Ranking, ordered: set<nat>, v: nat)
    requires OrderOk(vc, r.varOrder, r.varPosition, ordered) && v <= vc && r.varPosition[v] != 0
    ensures r.varPosition[v] < |r.varOrder| && r.varOrder[r.varPosition[v]] == v
  {
    assert v in r.varOrder;
  }

  /** Except for the variable at position it, the order is still sorted after a rise of its score by one. */
  lemma BumpedSorted(vc: nat, r: Ranking, ordered: set<nat>, activity: seq<Activity>, it: nat)
    requires OrderOk(vc, r.varOrder, r.varPosition, ordered) && SortedByScore(r.activity, r.varOrder) && it < |r.varOrder|
    requires forall u :: ScoreOf(activity, u) == ScoreOf(r.activity, u) + if u == r.varOrder[it] then 1 else 0
    ensures forall i, j :: 0 <= i <= j < |r.varOrder| && j != it ==> ScoreOf(activity, r.varOrder[i]) >= ScoreOf(activity, r.varOrder[j])
    ensures forall i :: 0 <= i < it ==> ScoreOf(activity, r.varOrder[i]) >= ScoreOf(activity, r.varOrder[it]) - 1
  {
    forall i | 0 <= i < |r.varOrder| && i != it ensures r.varOrder[i] != r.varOrder[it] {
      assert r.varPosition[r.varOrder[i]] == i;
    }
  }

  lemma BumpedStays(vc: nat, r: Ranking, ordered: set<nat>, activity: seq<Activity>, l: int)
    requires OrderOk(vc, r.varOrder, r.varPosition, ordered) && SortedByScore(r.activity, r.varOrder) && VarOf(l) <= vc
    requires forall u :: ScoreOf(activity, u) == ScoreOf(r.activity, u) + if u == VarOf(l) then 1 else 0
    requires var it := r.varPosition[VarOf(l)];
      it == 0 || (it < |r.varOrder| && r.varOrder[it] == VarOf(l) && ScoreOf(activity, VarOf(l)) <= ScoreOf(activity, r.varOrder[it - 1]))
    ensures SortedByScore(activity, r.varOrder)
  {
    var v := VarOf(l);
    forall i, j | 0 <= i <= j < |r.varOrder| ensures ScoreOf(activity, r.varOrder[i]) >= ScoreOf(activity, r.varOrder[j]) {
      if r.varOrder[j] == v && i < j {
        assert r.varPosition[v] == j;
        assert ScoreOf(activity, r.varOrder[i]) >= ScoreOf(r.activity, r.varOrder[j - 1]);
      }
    }
  }

  /** The variables with a lower score than the one at position it are all one below it and start at first. */
  lemma FirstBelow(activity: seq<Activity>, varOrder: seq<nat>, score: nat, it: nat) returns (first: nat)
    requires 0 < it < |varOrder| && score == ScoreOf(activity, varOrder[it]) && score > ScoreOf(activity, varOrder[it - 1])
    requires forall i, j :: 0 <= i <= j < |varOrder| && j != it ==> ScoreOf(activity, varOrder[i]) >= ScoreOf(activity, varOrder[j])
    requires forall i :: 0 <= i < it ==> ScoreOf(activity, varOrder[i]) >= score - 1
    ensures first < it && FirstLower(activity, varOrder, score, it, first)
    ensures forall i :: first <= i < it ==> ScoreOf(activity, varOrder[i]) == score - 1
    ensures first > 0 ==> ScoreOf(activity, varOrder[first - 1]) >= score
  {
    first := it - 1;
    while first > 0 && ScoreOf(activity, varOrder[first - 1]) < score
      invariant first < it && forall i :: first <= i < it ==> ScoreOf(activity, varOrder[i]) == score - 1
    {
      first := first - 1;
    }
  }

  lemma SwappedOrder(vc: nat, r: Ranking, ordered: set<nat>, v: nat, it: nat, q: nat)
    requires RankShape(r) && OrderOk(vc, r.varOrder, r.varPosition, ordered)
    requires q <= it < |r.varOrder| && it > 0 && r.varOrder[it] == v && v < |r.varPosition|
    ensures var r' := Swapped(r, v, it, q); OrderOk(vc, r'.varOrder, r'.varPosition, ordered) && RankShape(r')
  {
    var order := Swapped(r, v, it, q).varOrder;
    forall x ensures x in order <==> x in r.varOrder {
      if x in r.varOrder {
        var i :| 0 <= i < |r.varOrder| && r.varOrder[i] == x;
        assert order[if i == it then q else if i == q then it else i] == x;
      }
    }
  }

  lemma SwappedSorted(r: Ranking, v: nat, it: nat, q: nat)
    requires RankShape(r) && q < it < |r.varOrder| && r.varOrder[it] == v && v < |r.varPosition|
    requires forall i, j :: 0 <= i <= j < |r.varOrder| && j != it ==> ScoreOf(r.activity, r.varOrder[i]) >= ScoreOf(r.activity, r.varOrder[j])
    requires forall i :: q <= i < it ==> ScoreOf(r.activity, r.varOrder[i]) == ScoreOf(r.activity, v) - 1
    requires q > 0 ==> ScoreOf(r.activity, r.varOrder[q - 1]) >= ScoreOf(r.activity, v)
    ensures var r' := Swapped(r, v, it, q); SortedByScore(r'.activity, r'.varOrder)
  {
    var order := Swapped(r, v, it, q).varOrder;
    forall i, j | 0 <= i <= j < |order| ensures ScoreOf(r.activity, order[i]) >= ScoreOf(r.activity, order[j]) {
      if i < q {
        assert ScoreOf(r.activity, r.varOrder[i]) >= ScoreOf(r.activity, r.varOrder[q - 1]);
      }
    }
  }

  ghost predicate Listed(imp: map<int, seq<int>>) {
    exists l :: l in imp && imp[l] != []
  }

  /** The scores, and slot 0 of the implication lists: a conflict on a binary clause leaves the false literal of the list there.
      Without binary clauses no slot is ever filled, and so no free variable is ever promoted past the scan. */
  ghost predicate ScoringOk(vc: nat, imp: map<int, seq<int>>, slot: map<int, int>, activity: seq<Activity>,
                            phase: seq<bool>, moved: set<nat>) {
    && |activity| == |phase| == vc + 1
    && (forall l :: LitOk(vc, l) ==> l in slot && (slot[l] != 0 ==> l in imp && slot[l] in imp[l]))
    && (moved != {} ==> Listed(imp))
  }

  lemma ScoringSizes(vc: nat, imp: map<int, seq<int>>, slot: map<int, int>, activity: seq<Activity>, phase: seq<bool>,
                     moved: set<nat>)
    requires ScoringOk(vc, imp, slot, activity, phase, moved)
    ensures |activity| == |phase| == vc + 1
  {
  }

  lemma ScoringMoves(vc: nat, imp: map<int, seq<int>>, slot: map<int, int>, activity: seq<Activity>, phase: seq<bool>,
                     moved: set<nat>)
    requires ScoringOk(vc, imp, slot, activity, phase, moved)
    ensures moved != {} ==> Listed(imp)
  {
  }

  lemma ScoringKept(vc: nat, imp: map<int, seq<int>>, slot: map<int, int>, activity: seq<Activity>, phase: seq<bool>,
                    moved: set<nat>,
                    activity': seq<Activity>, phase': seq<bool>, moved': set<nat>)
    requires ScoringOk(vc, imp, slot, activity, phase, moved) && |activity'| == |activity| && |phase'| == |phase|
    requires moved' <= moved || Listed(imp)
    ensures ScoringOk(vc, imp, slot, activity', phase', moved')
  {
  }

  /** The word whose scores rise when a literal with antecedent a is resolved: it starts one place before the antecedent, which for
      a binary clause is slot 0 of the implication list; an empty slot ends the word at once. */
  function ScoredLits(store: seq<seq<int>>, slot: map<int, int>, a: Ante): seq<int> {
    match a
    case Decided => []
    case Root => []
    case Binary(o) => if o in slot && slot[o] != 0 then [slot[o], o] else []
    case Stored(id) => if id < |store| then store[id] else []
  }

  lemma SlotFilled(vc: nat, imp: map<int, seq<int>>, slot: map<int, int>, activity: seq<Activity>, phase: seq<bool>,
                   moved: set<nat>, l: int, o: int)
    requires ScoringOk(vc, imp, slot, activity, phase, moved) && l in imp && o in imp[l]
    ensures ScoringOk(vc, imp, slot[l := o], activity, phase, moved)
  {
  }

  /** RSAT's choice of a sign. */
  function Signed(activity: seq<Activity>, phase: seq<bool>, v: nat): (x: int)
    requires v < |activity| == |phase|
    ensures VarOf(x) == v
  {
    var d := activity[v].pos - activity[v].neg;
    var w: int := v;
    if d > 32 then w else if -d > 32 then -w else if phase[v] then w else -w
  }

  ghost predicate AllClear(vc: nat, mark: seq<bool>) {
    |mark| == vc + 1 && forall v :: 0 <= v <= vc ==> !mark[v]
  }

  /** What a conflict above the root level leaves: an asserting clause for aLevel, entailed by the base formula. */
  ghost predicate LearnedOk(base: seq<seq<int>>, s: State, aLevel: nat, learned: Learned) {
    && 1 <= aLevel < s.dLevel
    && match learned
       case Unit(u) => LearnedUnit(base, s, aLevel, u)
       case Clause(id) => LearnedClause(base, s, aLevel, id)
  }

  ghost predicate LearnedUnit(base: seq<seq<int>>, s: State, aLevel: nat, u: int) {
    aLevel == 1 && LitOk(s.vc, u) && Val(s.value, u) == 0 && Entails(base, [u]) && InvBelow(base, s, aLevel, -1)
  }

  ghost predicate LearnedClause(base: seq<seq<int>>, s: State, aLevel: nat, id: nat) {
    && s.cc <= id < |s.store| && |s.store[id]| >= 2
    && Asserting(s.vc, s.value, s.level, s.store[id], aLevel) && InvBelow(base, s, aLevel, id)
  }

  function Elems(s: seq<int>): set<int> {
    set x | x in s
  }

  lemma TrailHolds(base: seq<seq<int>>, s: State, b: nat, except: int)
    requires InvBelow(base, s, b, except)
    ensures VarsShape(s.vc, s.value, s.level, s.ante) && TrailOk(s.vc, s.value, s.level, s.trail, s.dLevel)
    ensures |s.value| == |s.level| == |s.ante| == s.vc + 1
    ensures forall i :: 0 <= i < |s.trail| ==> LitOk(s.vc, s.trail[i]) && Val(s.value, s.trail[i]) == 1
    ensures RootSound(base, s.level, s.trail) && NoDuplicates(s.trail)
  {
  }

  /** A conflict at decision level 1 refutes the base formula. */
  lemma RootConflict(base: seq<seq<int>>, s: State, c: seq<int>)
    requires TrailOk(s.vc, s.value, s.level, s.trail, s.dLevel) && RootSound(base, s.level, s.trail) && s.dLevel <= 1
    requires Entails(base, c) && forall k :: 0 <= k < |c| ==> LitOk(s.vc, c[k]) && -c[k] in s.trail
    ensures !Satisfiable(base)
  {
    hide TrailOk;
    hide RootSound;
    LevelsAtRoot(s.vc, s.value, s.level, s.trail, s.dLevel);
    if Satisfiable(base) {
      var a: Assignment :| Models(a, base);
      var x :| x in c && Holds(a, x);
      RootFalse(base, s, x);
    }
  }

  // --------------------------------------------------- popping while analysing

  lemma PopUnmarked(vc: nat, level: seq<nat>, trail: seq<int>, d: nat, mark: seq<bool>, tmp: seq<int>, cur: set<int>)
    requires Analysis(vc, level, trail, d, mark, tmp, cur) && trail != [] && !Marked(mark, trail[|trail| - 1])
    requires LitOk(vc, trail[|trail| - 1])
    ensures Analysis(vc, level, trail[..|trail| - 1], d, mark, tmp, cur)
  {
    var l := trail[|trail| - 1];
    assert trail == trail[..|trail| - 1] + [l];
    assert forall x :: x in tmp || x in cur ==> x != -l;
  }

  lemma PopMarked(vc: nat, value: seq<int>, level: seq<nat>, trail: seq<int>, d: nat, mark: seq<bool>, tmp: seq<int>,
                  cur: set<int>)
    requires Analysis(vc, level, trail, d, mark, tmp, cur) && trail != [] && Marked(mark, trail[|trail| - 1])
    requires LitOk(vc, trail[|trail| - 1]) && Lev(level, trail[|trail| - 1]) == d && |level| == vc + 1
    requires forall i :: 0 <= i < |trail| ==> Val(value, trail[i]) == 1
    ensures var l := trail[|trail| - 1];
      -l in cur && -l !in tmp && Analysis(vc, level, trail[..|trail| - 1], d, mark[VarOf(l) := false], tmp, cur - {-l})
  {
    var l := trail[|trail| - 1];
    assert trail == trail[..|trail| - 1] + [l];
    assert Lev(level, -l) == d;
    MarkedIn(vc, level, trail, d, mark, tmp, cur, -l, value);
    assert l !in tmp && l !in cur by {
      assert -l in trail ==> Val(value, -l) == 1;
    }
  }

  /** While a current-level literal remains to be found the trail ends in a literal of that level. */
  lemma CurrentOnTop(s: State, d: nat, mark: seq<bool>, tmp: seq<int>, cur: set<int>)
    requires TrailOk(s.vc, s.value, s.level, s.trail, s.dLevel) && d == s.dLevel && |cur| > 0
    requires Analysis(s.vc, s.level, s.trail, d, mark, tmp, cur)
    ensures s.trail != [] && Lev(s.level, s.trail[|s.trail| - 1]) == d
  {
    hide TrailOk;
    var x := SomeElement(cur);
    var c := [x];
    assert Lev(s.level, c[0]) == d && -c[0] in s.trail;
    LevelsAtRoot(s.vc, s.value, s.level, s.trail, s.dLevel);
    TopOfLevel(s, c);
  }

  /** If another literal of the level lies below, the last trail literal was implied. */
  lemma ImpliedNotDecided(base: seq<seq<int>>, s: State)
    requires AntesOk(s.vc, s.store, s.imp, s.level, s.ante, s.trail) && |s.trail| >= 2 && s.dLevel >= 2
    requires Lev(s.level, s.trail[|s.trail| - 1]) == s.dLevel && Lev(s.level, s.trail[|s.trail| - 2]) == s.dLevel
    ensures AnteOf(s.ante, s.trail[|s.trail| - 1]) != Decided
  {
    var i := |s.trail| - 1;
    assert AnteOk(s.vc, s.store, s.imp, s.level, s.ante, s.trail, i);
  }

  /** The deque of conflict literals built so far: its front has the highest level. */
  ghost predicate DequeOk(level: seq<nat>, lits: seq<int>, aLevel: nat) {
    && NoDuplicates(lits)
    && (lits == [] ==> aLevel == 1)
    && (lits != [] ==> aLevel >= 2 && Lev(level, lits[0]) == aLevel)
    && forall k :: 0 <= k < |lits| ==> Lev(level, lits[k]) <= aLevel
  }


  // ------------------------------------------------- propagation, on values

  /** The true literals whose consequences are still to be drawn. */
  ghost function Todo(pending: set<int>, trail: seq<int>, head: nat): set<int>
    requires head <= |trail|
  {
    pending + Elems(trail[head..])
  }

  lemma TodoPlaced(pending: set<int>, trail: seq<int>, head: nat, l: int)
    requires head <= |trail|
    ensures Todo(pending, trail + [l], head) == Todo(pending, trail, head) + {l}
  {
    assert (trail + [l])[head..] == trail[head..] + [l];
  }

  ghost predicate BinaryListTrue(vc: nat, imp: map<int, seq<int>>, value: seq<int>, l: int) {
    l in imp && forall o :: o in imp[l] ==> LitOk(vc, o) && Val(value, o) == 1
  }

  /** What the invariant says of sizes, values and lists. */
  lemma BusyFacts(base: seq<seq<int>>, s: State, todo: set<int>, litFalse: int, rest: seq<nat>)
    requires Inv(base, s, todo, -1, litFalse, rest)
    ensures |s.value| == |s.level| == |s.ante| == s.vc + 1 && forall x :: -1 <= Val(s.value, x) <= 1
    ensures TrailOk(s.vc, s.value, s.level, s.trail, s.dLevel) && ListShape(s.vc, s.imp, s.watch)
    ensures StoreSound(base, s.store, s.imp) && RootSound(base, s.level, s.trail)
    ensures StoreShape(s.vc, s.cc, s.store) && Filed(s.cc, s.store, s.watch)
  {
  }

  lemma ListFacts(vc: nat, imp: map<int, seq<int>>, watch: map<int, seq<nat>>, l: int)
    requires ListShape(vc, imp, watch) && LitOk(vc, l)
    ensures l in imp && l in watch && forall k :: 0 <= k < |imp[l]| ==> LitOk(vc, imp[l][k])
  {
    assert forall k :: 0 <= k < |imp[l]| ==> imp[l][k] in imp[l];
  }

  /** A binary clause with a false literal of the current level implies its other literal. */
  lemma BinaryImplied(base: seq<seq<int>>, s: State, todo: set<int>, p: int, o: int)
    requires Inv(base, s, todo, -1, 0, []) && p in s.trail && LitOk(s.vc, p) && Lev(s.level, p) == s.dLevel >= 1
    requires -p in s.imp && o in s.imp[-p] && LitOk(s.vc, o) && Val(s.value, o) == 0
    ensures |s.value| == |s.level| == |s.ante| == s.vc + 1
    ensures Inv(base, Place(s, o, Binary(-p)), todo + {o}, -1, 0, [])
  {
    BusyFacts(base, s, todo, 0, []);
    hide Inv;
    hide VarsShape;
    hide StoreShape;
    hide ListShape;
    hide TrailOk;
    hide AntesOk;
    hide Filed;
    hide WatchesDone;
    hide BinariesDone;
    hide StoreSound;
    hide RootSound;
    hide TodoOk;
    hide Entails;
    ListFacts(s.vc, s.imp, s.watch, -p);
    BinaryFits(s, p, o);
    hide AnteFits;
    if s.dLevel == 1 {
      BinaryAtRoot(base, s, p, o);
    }
    PlaceKeeps(base, s, todo, -1, 0, [], o, Binary(-p));
  }

  lemma BinaryFits(s: State, p: int, o: int)
    requires TrailOk(s.vc, s.value, s.level, s.trail, s.dLevel) && s.dLevel >= 1 && ListShape(s.vc, s.imp, s.watch)
    requires p in s.trail && LitOk(s.vc, p) && Lev(s.level, p) == s.dLevel && -p in s.imp && o in s.imp[-p]
    ensures AnteFits(s.vc, s.store, s.imp, s.level, s.trail, s.dLevel, o, Binary(-p))
  {
    hide TrailOk;
    var c := [-p];
    assert Lev(s.level, c[0]) == s.dLevel && -c[0] in s.trail;
    TopOfLevel(s, c);
  }

  lemma BinaryAtRoot(base: seq<seq<int>>, s: State, p: int, o: int)
    requires TrailOk(s.vc, s.value, s.level, s.trail, s.dLevel) && RootSound(base, s.level, s.trail) && StoreSound(base, s.store, s.imp)
    requires p in s.trail && LitOk(s.vc, p) && Lev(s.level, p) <= 1 && -p in s.imp && o in s.imp[-p]
    ensures Entails(base, [o])
  {
    hide TrailOk;
    hide RootSound;
    assert Lev(s.level, -p) == Lev(s.level, p);
    RootFalse(base, s, -p);
    assert Entails(base, [-p, o]);
    var c := [-p, o];
    UnitConsequence(base, c, o);
  }

  lemma BinaryConflict(base: seq<seq<int>>, s: State, todo: set<int>, p: int, o: int)
    requires Inv(base, s, todo, -1, 0, []) && p in s.trail && LitOk(s.vc, p) && Lev(s.level, p) == s.dLevel >= 1
    requires -p in s.imp && o in s.imp[-p] && LitOk(s.vc, o) && Val(s.value, o) == -1
    ensures InvBelow(base, s, s.dLevel - 1, -1) && Entails(base, [o, -p]) && -o in s.trail
    ensures Lev(s.level, -p) == s.dLevel
  {
    hide Inv;
    hide InvBelow;
    hide VarsShape;
    hide StoreShape;
    hide ListShape;
    hide TrailOk;
    hide AntesOk;
    hide Filed;
    hide WatchesDone;
    hide BinariesDone;
    hide StoreSound;
    hide RootSound;
    hide TodoOk;
    hide Entails;
    BusyFacts(base, s, todo, 0, []);
    Interrupted(base, s, todo, 0, [], s.dLevel - 1);
    TrailFacts(s.vc, s.value, s.level, s.trail, s.dLevel);
    assert Val(s.value, -o) == 1;
    BinaryEntailed(base, s.store, s.imp, -p, o);
  }

  lemma BinaryEntailed(base: seq<seq<int>>, store: seq<seq<int>>, imp: map<int, seq<int>>, l: int, o: int)
    requires StoreSound(base, store, imp) && l in imp && o in imp[l]
    ensures Entails(base, [o, l])
  {
    assert Entails(base, [l, o]);
    forall a: Assignment | Models(a, base) ensures Satisfies(a, [o, l]) {
      assert Satisfies(a, [l, o]);
      assert forall x :: x in [l, o] ==> x in [o, l];
    }
  }

  /** Assigning o leaves true literals true and their levels as they are. */
  lemma PlaceKeepsTrue(value: seq<int>, level: seq<nat>, o: int, d: nat)
    requires 1 <= VarOf(o) < |value| && |value| == |level| && Val(value, o) == 0
    ensures forall x :: Val(value, x) != 0 ==>
      Val(value[VarOf(o) := SignOf(o)], x) == Val(value, x) && Lev(level[VarOf(o) := d], x) == Lev(level, x)
    ensures Val(value[VarOf(o) := SignOf(o)], o) == 1
  {
    PlaceVals(value, o);
    PlaceLevs(level, o, d);
  }

  lemma RootsPlaced(level0: seq<nat>, trail0: seq<int>, value: seq<int>, level: seq<nat>, trail: seq<int>, o: int, d: nat)
    requires RootsKept(level0, trail0, level, trail) && 1 <= VarOf(o) < |value| && |value| == |level| && Val(value, o) == 0
    requires forall i :: 0 <= i < |trail| ==> Val(value, trail[i]) == 1
    ensures RootsKept(level0, trail0, level[VarOf(o) := d], trail + [o])
  {
    PlaceLevs(level, o, d);
    forall l | l in trail0 && Lev(level0, l) <= 1 ensures l in trail + [o] && Lev(level[VarOf(o) := d], l) <= 1 {
      assert l in trail && Val(value, l) == 1;
    }
  }

  lemma RootsTransitive(level0: seq<nat>, trail0: seq<int>, level1: seq<nat>, trail1: seq<int>, level2: seq<nat>,
                        trail2: seq<int>)
    requires RootsKept(level0, trail0, level1, trail1) && RootsKept(level1, trail1, level2, trail2)
    ensures RootsKept(level0, trail0, level2, trail2)
  {
  }

  /** An entry of a watch list is a clause watching that literal. */
  lemma EntryFacts(vc: nat, cc: nat, store: seq<seq<int>>, watch: map<int, seq<nat>>, l: int, i: nat)
    requires Filed(cc, store, watch) && StoreShape(vc, cc, store) && l in watch && i < |watch[l]|
    ensures var id := watch[l][i];
      Watched(cc, store, id) && id < |store| && |store[id]| >= 2 && (store[id][0] == l || store[id][1] == l)
    ensures forall k :: 0 <= k < |store[watch[l][i]]| ==> LitOk(vc, store[watch[l][i]][k])
  {
    var id := watch[l][i];
    assert id in watch[l];
    assert ClauseShape(vc, store[id]);
  }

  lemma RefileSteps(watch: map<int, seq<nat>>, a: int, i: nat, b: int)
    requires a in watch && b in watch && a != b && i < |watch[a]|
    ensures Refile(watch, a, i, b) == watch[b := watch[b] + [watch[a][i]]][a := SwapPop(watch[a], i)]
  {
  }

  /** A falsified clause met in propagation is entailed and all its literals are false, one at the current level. */
  lemma ClauseConflict(base: seq<seq<int>>, s: State, todo: set<int>, litFalse: int, rest: seq<nat>, w: nat)
    requires Inv(base, s, todo, -1, litFalse, rest) && rest != [] && w <= 1 && s.dLevel >= 1
    requires LitOk(s.vc, litFalse) && Val(s.value, litFalse) == -1 && Lev(s.level, litFalse) == s.dLevel
    requires Watched(s.cc, s.store, rest[0]) && s.store[rest[0]][w] == litFalse && Val(s.value, s.store[rest[0]][1 - w]) == -1
    requires forall k :: 2 <= k < |s.store[rest[0]]| ==> Val(s.value, s.store[rest[0]][k]) == -1
    ensures InvBelow(base, s, s.dLevel - 1, -1) && Entails(base, s.store[rest[0]])
    ensures forall k :: 0 <= k < |s.store[rest[0]]| ==> LitOk(s.vc, s.store[rest[0]][k]) && -s.store[rest[0]][k] in s.trail
  {
    hide Inv;
    hide InvBelow;
    hide VarsShape;
    hide StoreShape;
    hide ListShape;
    hide TrailOk;
    hide AntesOk;
    hide Filed;
    hide WatchesDone;
    hide BinariesDone;
    hide StoreSound;
    hide RootSound;
    hide TodoOk;
    hide Entails;
    BusyFacts(base, s, todo, litFalse, rest);
    Interrupted(base, s, todo, litFalse, rest, s.dLevel - 1);
    StoredEntailed(base, s.store, s.imp, rest[0]);
    StoredClause(s.vc, s.cc, s.store, rest[0]);
    FalsifiedNegations(s, s.store[rest[0]], w);
  }

  lemma FalsifiedNegations(s: State, c: seq<int>, w: nat)
    requires TrailOk(s.vc, s.value, s.level, s.trail, s.dLevel) && |c| >= 2 && w <= 1
    requires Val(s.value, c[w]) == -1 && Val(s.value, c[1 - w]) == -1 && forall k :: 2 <= k < |c| ==> Val(s.value, c[k]) == -1
    requires forall k :: 0 <= k < |c| ==> LitOk(s.vc, c[k])
    ensures forall k :: 0 <= k < |c| ==> -c[k] in s.trail
  {
    TrailFacts(s.vc, s.value, s.level, s.trail, s.dLevel);
    hide TrailOk;
    forall k | 0 <= k < |c| ensures -c[k] in s.trail {
      assert k == w || k == 1 - w || k >= 2;
      assert Val(s.value, -c[k]) == 1;
    }
  }

  lemma TodoOne(pending: set<int>, trail: seq<int>, l: int)
    ensures Todo(pending, trail + [l], |trail|) == pending + {l}
  {
    assert (trail + [l])[|trail|..] == [l];
  }

  lemma TodoNone(pending: set<int>, trail: seq<int>, head: nat)
    requires head == |trail|
    ensures Todo(pending, trail, head) == pending
  {
  }

  lemma TodoAdvance(pending: set<int>, trail: seq<int>, head: nat)
    requires head < |trail|
    ensures trail[head] in Todo(pending, trail, head)
    ensures Todo(pending, trail, head) - {trail[head]} <= Todo(pending, trail, head + 1) <= Todo(pending, trail, head)
  {
    assert trail[head..] == [trail[head]] + trail[head + 1..];
  }

  /** The literal at the head is true and of the current level. */
  lemma HeadFacts(base: seq<seq<int>>, s: State, pending: set<int>, head: nat)
    requires head < |s.trail| && Inv(base, s, Todo(pending, s.trail, head), -1, 0, [])
    ensures |s.value| == |s.level| == |s.ante| == s.vc + 1
    ensures LitOk(s.vc, s.trail[head]) && Lev(s.level, s.trail[head]) == s.dLevel && Val(s.value, -s.trail[head]) == -1
    ensures -s.trail[head] in s.imp && -s.trail[head] in s.watch && Lev(s.level, -s.trail[head]) == s.dLevel
  {
    hide StoreShape;
    hide ListShape;
    hide TrailOk;
    hide AntesOk;
    hide Filed;
    hide WatchesDone;
    hide BinariesDone;
    hide StoreSound;
    hide RootSound;
    hide Entails;
    TodoAdvance(pending, s.trail, head);
    assert LitOk(s.vc, s.trail[head]) && Val(s.value, s.trail[head]) == 1;
    ListFacts(s.vc, s.imp, s.watch, -s.trail[head]);
  }

  /** A smaller set of work that still covers all the work is as good. */
  lemma TodoBetween(base: seq<seq<int>>, s: State, small: set<int>, todo: set<int>, large: set<int>, litFalse: int,
                    rest: seq<nat>)
    requires Inv(base, s, small, -1, litFalse, rest) && small <= todo <= large && TodoOk(s.vc, s.value, s.level, s.dLevel, large)
    ensures Inv(base, s, todo, -1, litFalse, rest)
  {
    hide VarsShape;
    hide StoreShape;
    hide ListShape;
    hide TrailOk;
    hide AntesOk;
    hide Filed;
    hide StoreSound;
    hide RootSound;
  }

  lemma TodoHolds(base: seq<seq<int>>, s: State, todo: set<int>)
    requires Inv(base, s, todo, -1, 0, [])
    ensures TodoOk(s.vc, s.value, s.level, s.dLevel, todo)
  {
  }

  lemma HeadBinariesDone(base: seq<seq<int>>, s: State, pending: set<int>, head: nat)
    requires head < |s.trail| && Inv(base, s, Todo(pending, s.trail, head), -1, 0, [])
    requires LitOk(s.vc, s.trail[head]) && Lev(s.level, s.trail[head]) == s.dLevel && -s.trail[head] in s.watch
    requires BinaryListTrue(s.vc, s.imp, s.value, -s.trail[head])
    ensures Inv(base, s, Todo(pending, s.trail, head + 1), -1, -s.trail[head], s.watch[-s.trail[head]])
  {
    hide Inv;
    hide TodoOk;
    hide Todo;
    var p, todo := s.trail[head], Todo(pending, s.trail, head);
    TodoAdvance(pending, s.trail, head);
    TodoHolds(base, s, todo);
    BinaryStageDone(base, s, todo, p);
    TodoBetween(base, s, todo - {p}, Todo(pending, s.trail, head + 1), todo, -p, s.watch[-p]);
  }

  /** The trail holds each variable at most once. */
  lemma TrailBound(vc: nat, value: seq<int>, level: seq<nat>, trail: seq<int>, d: nat)
    requires TrailOk(vc, value, level, trail, d)
    ensures |trail| <= vc
  {
    forall i, j | 0 <= i < j < |trail| ensures VarOf(trail[i]) != VarOf(trail[j]) {
      assert Val(value, trail[i]) == 1 && Val(value, trail[j]) == 1;
    }
    DistinctVars(vc, trail);
  }

  lemma {:induction false} DistinctVars(vc: nat, lits: seq<int>)
    requires forall i :: 0 <= i < |lits| ==> LitOk(vc, lits[i])
    requires forall i, j :: 0 <= i < j < |lits| ==> VarOf(lits[i]) != VarOf(lits[j])
    ensures |lits| <= vc
    decreases vc
  {
    if lits == [] {
    } else if exists i :: 0 <= i < |lits| && VarOf(lits[i]) == vc {
      var i :| 0 <= i < |lits| && VarOf(lits[i]) == vc;
      DistinctVars(vc - 1, lits[..i] + lits[i + 1..]);
    } else {
      assert LitOk(vc, lits[0]);
      DistinctVars(vc - 1, lits);
    }
  }

  // -------------------------------------- decisions and conflicts, on values

  /** Popping everything above level b leaves exactly the assignments up to b. */
  lemma RewoundBy(s: State, trail: seq<int>, value: seq<int>, b: nat)
    requires TrailOk(s.vc, s.value, s.level, s.trail, s.dLevel) && TrailOk(s.vc, value, s.level, trail, s.dLevel)
    requires |value| == |s.value| == s.vc + 1 && (forall x :: -1 <= Val(value, x) <= 1 && -1 <= Val(s.value, x) <= 1) && value[0] == s.value[0] == 0
    requires trail <= s.trail && forall i :: |trail| <= i < |s.trail| ==> Lev(s.level, s.trail[i]) > b
    requires trail != [] ==> Lev(s.level, trail[|trail| - 1]) <= b
    ensures Rewound(s.value, s.level, value, b)
  {
    TrailFacts(s.vc, s.value, s.level, s.trail, s.dLevel);
    TrailFacts(s.vc, value, s.level, trail, s.dLevel);
    forall x ensures Val(value, x) == 1 <==> Val(s.value, x) == 1 && Lev(s.level, x) <= b {
      KeptIffBelow(s, trail, value, b, x);
    }
    hide TrailOk;
    forall x ensures Val(value, x) == if Val(s.value, x) != 0 && Lev(s.level, x) <= b then Val(s.value, x) else 0 {
      assert Val(value, -x) == 1 <==> Val(s.value, -x) == 1 && Lev(s.level, -x) <= b;
      assert Lev(s.level, -x) == Lev(s.level, x) && Val(value, -x) == -Val(value, x) && Val(s.value, -x) == -Val(s.value, x);
    }
  }

  lemma KeptIffBelow(s: State, trail: seq<int>, value: seq<int>, b: nat, x: int)
    requires TrailOk(s.vc, s.value, s.level, s.trail, s.dLevel) && TrailOk(s.vc, value, s.level, trail, s.dLevel)
    requires |value| == |s.value| == s.vc + 1 && value[0] == s.value[0] == 0
    requires trail <= s.trail && forall i :: |trail| <= i < |s.trail| ==> Lev(s.level, s.trail[i]) > b
    requires trail != [] ==> Lev(s.level, trail[|trail| - 1]) <= b
    ensures Val(value, x) == 1 <==> Val(s.value, x) == 1 && Lev(s.level, x) <= b
  {
    if Val(value, x) == 1 {
      assert x in trail;
      var i :| 0 <= i < |trail| && trail[i] == x;
      assert s.trail[i] == x;
      LevelsMonotone(s.vc, value, s.level, trail, s.dLevel, i, |trail| - 1);
    }
    if Val(s.value, x) == 1 && Lev(s.level, x) <= b {
      assert x in s.trail;
      var i :| 0 <= i < |s.trail| && s.trail[i] == x;
      assert i < |trail| && trail[i] == x;
    }
  }

  /** A decision may open a new level once propagation is complete. */
  lemma DecisionFits(base: seq<seq<int>>, s: State, l: int)
    requires Inv(base, s, {}, -1, 0, []) && s.dLevel >= 1 && LitOk(s.vc, l) && Val(s.value, l) == 0
    ensures |s.value| == |s.level| == |s.ante| == s.vc + 1
    ensures Inv(base, Place(s.(dLevel := s.dLevel + 1), l, Decided), {l}, -1, 0, [])
  {
    BusyFacts(base, s, {}, 0, []);
    var t := s.(dLevel := s.dLevel + 1);
    assert Inv(base, t, {}, -1, 0, []) by {
      hide AntesOk;
      hide Filed;
      hide WatchesDone;
      hide BinariesDone;
      hide StoreSound;
      hide RootSound;
      hide StoreShape;
      hide VarsShape;
      hide ListShape;
    }
    assert t.trail != [] ==> Lev(t.level, t.trail[|t.trail| - 1]) < t.dLevel;
    hide Inv;
    PlaceKeeps(base, t, {}, -1, 0, [], l, Decided);
    assert {} + {l} == {l};
  }

  /** The state after a backjump, with the learned clause ready to be asserted. */
  ghost predicate Rejoined(base: seq<seq<int>>, s: State, learned: Learned) {
    match learned
    case Unit(u) => s.dLevel == 1 && LitOk(s.vc, u) && Val(s.value, u) == 0 && Entails(base, [u]) && Inv(base, s, {}, -1, 0, [])
    case Clause(id) =>
      (s.cc <= id < |s.store| && |s.store[id]| >= 2 && Asserting(s.vc, s.value, s.level, s.store[id], s.dLevel) && Inv(base, s, {}, id, 0, []))
  }

  lemma RejoinedFacts(base: seq<seq<int>>, s: State, learned: Learned)
    requires Rejoined(base, s, learned)
    ensures |s.value| == |s.level| == |s.ante| == s.vc + 1 && forall i :: 0 <= i < |s.trail| ==> Val(s.value, s.trail[i]) == 1
    ensures learned.Unit? ==> var u := learned.lit;
      LitOk(s.vc, u) && Val(s.value, u) == 0 && Inv(base, Place(s, u, Root), {} + {u}, -1, 0, [])
    ensures learned.Clause? ==> learned.id < |s.store| && s.store[learned.id] != []
    ensures learned.Clause? ==> var u := s.store[learned.id][0];
      LitOk(s.vc, u) && Val(s.value, u) == 0 && Inv(base, Place(s, u, Stored(learned.id)), {} + {u}, -1, 0, [])
  {
    match learned {
      case Unit(u) =>
        PlaceKeeps(base, s, {}, -1, 0, [], u, Root);
      case Clause(id) =>
        AssertLearned(base, s, id);
        assert {} + {s.store[id][0]} == {s.store[id][0]};
    }
  }

  /** The stored learned clause, whose watches are not in order before it is asserted. */
  function Except(learned: Learned): int {
    match learned
    case Unit(_) => -1
    case Clause(id) => id
  }

  lemma LearnedLevel(base: seq<seq<int>>, s: State, aLevel: nat, learned: Learned)
    requires LearnedOk(base, s, aLevel, learned)
    ensures 1 <= aLevel < s.dLevel
  {
  }

  lemma LearnedBelow(base: seq<seq<int>>, s: State, aLevel: nat, learned: Learned, b: nat)
    requires LearnedOk(base, s, aLevel, learned) && 1 <= b <= aLevel
    ensures InvBelow(base, s, b, Except(learned)) && s.cc <= |s.store|
  {
    hide InvBelow;
    hide Asserting;
    hide Entails;
    LowerBound(base, s, aLevel, b, Except(learned));
    BelowSizes(base, s, b, Except(learned));
  }

  lemma BelowSizes(base: seq<seq<int>>, s: State, b: nat, except: int)
    requires InvBelow(base, s, b, except)
    ensures s.cc <= |s.store|
  {
  }

  /** After the backjump to its assertion level the learned clause can be asserted. */
  lemma Rejoin(base: seq<seq<int>>, s: State, t: State, aLevel: nat, learned: Learned)
    requires LearnedOk(base, s, aLevel, learned) && t == s.(trail := t.trail, value := t.value, dLevel := aLevel)
    requires Inv(base, t, {}, Except(learned), 0, []) && Rewound(s.value, s.level, t.value, aLevel)
    ensures Rejoined(base, t, learned)
  {
    hide Inv;
    hide InvBelow;
    hide Entails;
    hide Val;
    hide Lev;
  }

  /** After a restart the learned clause, of two or more literals, has two free watches. */
  lemma Restarted(base: seq<seq<int>>, s: State, t: State, aLevel: nat, learned: Learned)
    requires LearnedOk(base, s, aLevel, learned) && t == s.(trail := t.trail, value := t.value, dLevel := 1) && aLevel != 1
    requires Inv(base, t, {}, Except(learned), 0, []) && Rewound(s.value, s.level, t.value, 1)
    ensures Inv(base, t, {}, -1, 0, [])
  {
    hide Inv;
    hide InvBelow;
    hide Entails;
    hide Val;
    hide Lev;
    match learned {
      case Unit(u) =>
        assert false;
      case Clause(id) =>
        RestartedLearned(base, t, id);
    }
  }

  /** With propagation complete an added clause that is not satisfied has a free literal. */
  lemma AddedOpen(vc: nat, cc: nat, store: seq<seq<int>>, value: seq<int>, id: nat)
    requires StoreShape(vc, cc, store) && cc <= id < |store|
    requires forall j: nat :: Watched(cc, store, j) ==> OpenTwice(value, store[j])
    requires !exists k :: 0 <= k < |store[id]| && Val(value, store[id][k]) == 1
    ensures exists k :: 0 <= k < |store[id]| && Val(value, store[id][k]) == 0
    ensures forall k :: 0 <= k < |store[id]| ==> LitOk(vc, store[id][k])
  {
    assert Watched(cc, store, id) && ClauseShape(vc, store[id]);
    assert OpenTwice(value, store[id]);
  }

  // ------------------------------------------------- solutions, on values

  /** The clause c of the base formula is in the store, or is a blocking unit clause. */
  ghost predicate Held(c: seq<int>, cc: nat, store: seq<seq<int>>, indices: seq<nat>, units: seq<int>) {
    || (exists id :: 0 <= id < cc && id < |store| && Same(c, store[id]))
    || (exists i :: 0 <= i < |indices| && indices[i] < |store| && Same(c, store[indices[i]]))
    || (exists i :: 0 <= i < |units| && c == [units[i]])
  }

  ghost predicate Link(base: seq<seq<int>>, cc: nat, store: seq<seq<int>>, imp: map<int, seq<int>>, indices: seq<nat>,
                       units: seq<int>) {
    && (forall c :: c in base ==> Held(c, cc, store, indices, units))
    && (forall i :: 0 <= i < |indices| ==> cc <= indices[i] < |store|)
    && (forall i :: 0 <= i < |units| ==> [units[i]] in base)
    && (forall id :: 0 <= id < cc && id < |store| ==> store[id] != [] && (|store[id]| == 2 ==> Implies(imp, store[id])))
  }

  /** A binary clause of the formula is in the implication lists. */
  ghost predicate Implies(imp: map<int, seq<int>>, c: seq<int>) {
    |c| == 2 && c[0] in imp && c[1] in imp[c[0]]
  }

  ghost predicate RootsHeld(cc: nat, store: seq<seq<int>>, units: seq<int>, level: seq<nat>, trail: seq<int>) {
    && (forall id :: 0 <= id < cc && id < |store| && |store[id]| == 1 ==> store[id][0] in trail && Lev(level, store[id][0]) <= 1)
    && (forall i :: 0 <= i < |units| ==> units[i] in trail && Lev(level, units[i]) <= 1)
  }

  lemma LinkKept(base: seq<seq<int>>, cc: nat, store: seq<seq<int>>, imp: map<int, seq<int>>, indices: seq<nat>,
                 units: seq<int>, store': seq<seq<int>>)
    requires Link(base, cc, store, imp, indices, units) && Evolves(cc, store, store') && cc <= |store|
    ensures Link(base, cc, store', imp, indices, units)
  {
    forall c | c in base ensures Held(c, cc, store', indices, units) {
      HeldKept(c, cc, store, indices, units, store');
    }
    hide Held;
    hide Same;
  }

  lemma HeldKept(c: seq<int>, cc: nat, store: seq<seq<int>>, indices: seq<nat>, units: seq<int>, store': seq<seq<int>>)
    requires Held(c, cc, store, indices, units) && Evolves(cc, store, store')
    ensures Held(c, cc, store', indices, units)
  {
    if id :| 0 <= id < cc && id < |store| && Same(c, store[id]) {
      assert Same(c, store'[id]);
    } else if i :| 0 <= i < |indices| && indices[i] < |store| && Same(c, store[indices[i]]) {
      assert Same(c, store'[indices[i]]);
    }
  }

  lemma RootsHeldKept(cc: nat, store: seq<seq<int>>, units: seq<int>, level: seq<nat>, trail: seq<int>,
                      store': seq<seq<int>>, level': seq<nat>, trail': seq<int>)
    requires RootsHeld(cc, store, units, level, trail) && Evolves(cc, store, store') && RootsKept(level, trail, level', trail') && cc <= |store|
    ensures RootsHeld(cc, store', units, level', trail')
  {
    hide Same;
  }

  /** The search on added clauses starts at the clause next and ends here. */
  function WindowStart(next: int): int {
    if next > 256 then next - 256 else 0
  }

  /** The added clauses from one number to another have a true literal each. */
  ghost predicate AllSatisfied(cc: nat, store: seq<seq<int>>, value: seq<int>, from: int, to: int) {
    forall id :: cc <= cc + from <= id < cc + to && id < |store| ==> SomeTrue(value, store[id])
  }

  /** Literal k of c is the first of the free ones with the highest score. */
  ghost predicate BestAt(activity: seq<Activity>, value: seq<int>, c: seq<int>, k: nat) {
    && k < |c| && Val(value, c[k]) == 0
    && (forall j :: 0 <= j < |c| && Val(value, c[j]) == 0 ==> ScoreOf(activity, VarOf(c[j])) <= ScoreOf(activity, VarOf(c[k])))
    && forall j :: 0 <= j < k && Val(value, c[j]) == 0 ==> ScoreOf(activity, VarOf(c[j])) < ScoreOf(activity, VarOf(c[k]))
  }

  /** x is the first free variable of the unsatisfied clause c that has the highest score, with the sign RSAT chooses. */
  ghost predicate BestIn(activity: seq<Activity>, phase: seq<bool>, value: seq<int>, c: seq<int>, x: int) {
    && !SomeTrue(value, c) && (exists k: nat :: BestAt(activity, value, c, k) && VarOf(c[k]) == VarOf(x))
    && VarOf(x) < |activity| == |phase| && x == Signed(activity, phase, VarOf(x))
  }

  /** selectLiteral__conflict: the newest clause without a true literal, among the 257 from next down, gives the literal; there is none,
      and 0 is returned, if all of these are satisfied. */
  ghost predicate Picked(cc: nat, store: seq<seq<int>>, activity: seq<Activity>, phase: seq<bool>, value: seq<int>,
                         next: int, next': int, x: int) {
    if AllSatisfied(cc, store, value, WindowStart(next), next + 1) then x == 0 && next' == if next == -1 then -1 else WindowStart(next)
    else
      && x != 0 && 0 <= WindowStart(next) <= next' <= next && cc + next' < |store| && AllSatisfied(cc, store, value, next' + 1, next + 1)
      && BestIn(activity, phase, value, store[cc + next'], x)
  }

  lemma PickedNone(cc: nat, store: seq<seq<int>>, activity: seq<Activity>, phase: seq<bool>, value: seq<int>, next: int)
    requires AllSatisfied(cc, store, value, WindowStart(next), next + 1)
    ensures Picked(cc, store, activity, phase, value, next, if next == -1 then -1 else WindowStart(next), 0)
  {
  }

  lemma PickedOne(cc: nat, store: seq<seq<int>>, activity: seq<Activity>, phase: seq<bool>, value: seq<int>,
                  next: int, i: int, x: int)
    requires 0 <= WindowStart(next) <= i <= next && cc + i < |store| && AllSatisfied(cc, store, value, i + 1, next + 1)
    requires x != 0 && BestIn(activity, phase, value, store[cc + i], x)
    ensures Picked(cc, store, activity, phase, value, next, i, x)
  {
  }

  ghost predicate SomeTrue(value: seq<int>, c: seq<int>) {
    exists k :: 0 <= k < |c| && Val(value, c[k]) == 1
  }

  /** c has a true literal with a marked variable. */
  ghost predicate NeedMarked(value: seq<int>, mark: seq<bool>, c: seq<int>) {
    exists k :: 0 <= k < |c| && Val(value, c[k]) == 1 && Marked(mark, c[k])
  }

  lemma MarksGrow(value: seq<int>, mark: seq<bool>, mark': seq<bool>)
    requires |mark'| == |mark| && forall v :: 0 <= v < |mark| && mark[v] ==> mark'[v]
    ensures forall c :: NeedMarked(value, mark, c) ==> NeedMarked(value, mark', c)
  {
    forall c | NeedMarked(value, mark, c) ensures NeedMarked(value, mark', c) {
      var k :| 0 <= k < |c| && Val(value, c[k]) == 1 && Marked(mark, c[k]);
      assert Marked(mark', c[k]);
    }
  }

  lemma NeedGrows(value: seq<int>, mark: seq<bool>, mark': seq<bool>, c: seq<int>)
    requires exists k :: 0 <= k < |c| && VarOf(c[k]) < |mark| && Val(value, c[k]) == 1 && mark' == mark[VarOf(c[k]) := true]
    ensures NeedMarked(value, mark', c) && forall d :: NeedMarked(value, mark, d) ==> NeedMarked(value, mark', d)
  {
    var k :| 0 <= k < |c| && VarOf(c[k]) < |mark| && Val(value, c[k]) == 1 && mark' == mark[VarOf(c[k]) := true];
    assert Marked(mark', c[k]);
    MarksGrow(value, mark, mark');
  }

  /** The check found a clause without a true literal. */
  ghost predicate Unsatisfied(cc: nat, store: seq<seq<int>>, indices: seq<nat>, value: seq<int>) {
    exists id :: 0 <= id < |store| && (id < cc || id in indices) && !SomeTrue(value, store[id])
  }

  /** Trimming only frees variables, keeps a true literal in every clause checked, and keeps the blocking units. */
  ghost predicate Trimmed(cc: nat, store: seq<seq<int>>, indices: seq<nat>, units: seq<int>, value: seq<int>, value': seq<int>) {
    && (forall x :: Val(value', x) == Val(value, x) || Val(value', x) == 0)
    && (forall id :: 0 <= id < cc && id < |store| ==> SomeTrue(value', store[id]))
    && (forall i :: 0 <= i < |indices| && indices[i] < |store| ==> SomeTrue(value', store[indices[i]]))
    && (forall i :: 0 <= i < |units| ==> Val(value', units[i]) == Val(value, units[i]))
  }

  lemma TrimmedKeeps(value: seq<int>, value': seq<int>, mark: seq<bool>)
    requires |value| == |value'| == |mark| && forall v :: 0 <= v < |mark| ==> value'[v] == if mark[v] then value[v] else 0
    ensures forall x :: Val(value', x) == Val(value, x) || Val(value', x) == 0
    ensures forall x :: Marked(mark, x) ==> Val(value', x) == Val(value, x)
    ensures forall c :: NeedMarked(value, mark, c) ==> SomeTrue(value', c)
  {
    forall c | NeedMarked(value, mark, c) ensures SomeTrue(value', c) {
      var k :| 0 <= k < |c| && Val(value, c[k]) == 1 && Marked(mark, c[k]);
      assert Val(value', c[k]) == 1;
    }
  }

  lemma TrimmedIntro(cc: nat, store: seq<seq<int>>, indices: seq<nat>, units: seq<int>, value: seq<int>,
                     value': seq<int>, mark: seq<bool>)
    requires (forall x :: Val(value', x) == Val(value, x) || Val(value', x) == 0) && forall x :: Marked(mark, x) ==> Val(value', x) == Val(value, x)
    requires forall c :: NeedMarked(value, mark, c) ==> SomeTrue(value', c)
    requires forall id :: 0 <= id < cc && id < |store| ==> NeedMarked(value, mark, store[id])
    requires forall i :: 0 <= i < |indices| && indices[i] < |store| ==> NeedMarked(value, mark, store[indices[i]])
    requires forall i :: 0 <= i < |units| ==> Marked(mark, units[i])
    ensures Trimmed(cc, store, indices, units, value, value')
  {
  }

  /** A partial assignment is an implicant if every clause has a literal it makes true. */
  ghost predicate Implicant(value: seq<int>, f: seq<seq<int>>) {
    forall c :: c in f ==> SomeTrue(value, c)
  }

  /** The trimmed assignment satisfies every clause of the base formula. */
  lemma TrimmedImplicant(base: seq<seq<int>>, cc: nat, store: seq<seq<int>>, imp: map<int, seq<int>>,
                         indices: seq<nat>, units: seq<int>,
                         value: seq<int>, value': seq<int>, level: seq<nat>, trail: seq<int>)
    requires Link(base, cc, store, imp, indices, units) && RootsHeld(cc, store, units, level, trail)
    requires forall i :: 0 <= i < |trail| ==> Val(value, trail[i]) == 1
    requires Trimmed(cc, store, indices, units, value, value')
    ensures Implicant(value', base)
  {
    forall c | c in base ensures SomeTrue(value', c) {
      assert Held(c, cc, store, indices, units);
      if id :| 0 <= id < cc && id < |store| && Same(c, store[id]) {
        SameTrue(value', store[id], c);
      } else if i :| 0 <= i < |indices| && indices[i] < |store| && Same(c, store[indices[i]]) {
        SameTrue(value', store[indices[i]], c);
      } else {
        var i :| 0 <= i < |units| && c == [units[i]];
        assert units[i] in trail && Val(value', c[0]) == 1;
      }
    }
  }

  lemma SameTrue(value: seq<int>, c: seq<int>, d: seq<int>)
    requires SomeTrue(value, c) && forall x :: x in c ==> x in d
    ensures SomeTrue(value, d)
  {
    var k :| 0 <= k < |c| && Val(value, c[k]) == 1;
    assert c[k] in d;
  }

  /** With propagation complete a clause of the formula, or a blocking clause, has a true literal or two free ones. */
  lemma ClauseOpen(base: seq<seq<int>>, s: State, indices: seq<nat>, units: seq<int>, id: nat)
    requires Inv(base, s, {}, -1, 0, []) && Link(base, s.cc, s.store, s.imp, indices, units)
    requires RootsHeld(s.cc, s.store, units, s.level, s.trail) && id < |s.store| && (id < s.cc || id in indices)
    ensures OpenTwice(s.value, s.store[id]) && ClauseShape(s.vc, s.store[id])
  {
    hide AntesOk;
    hide WatchesDone;
    hide BinariesDone;
    hide StoreSound;
    hide RootSound;
    hide Held;
    hide Filed;
    PropagationComplete(base, s);
    TrailFacts(s.vc, s.value, s.level, s.trail, s.dLevel);
    hide TrailOk;
    hide Inv;
    var c := s.store[id];
    assert ClauseShape(s.vc, c);
    if id < s.cc && |c| == 1 {
      UnitsTrue(s, units);
      var k :| 0 <= k < |c| && Val(s.value, c[k]) == 1;
      assert c[k] in c;
    } else if id < s.cc && |c| == 2 {
      assert LitOk(s.vc, c[0]) && OpenTwice(s.value, [c[0], c[1]]);
      assert c == [c[0], c[1]];
    } else {
      assert Watched(s.cc, s.store, id) && OpenTwice(s.value, c);
    }
  }

  /** With propagation complete a clause the final check finds unsatisfied has two free literals. */
  lemma UnsatisfiedOpen(base: seq<seq<int>>, s: State, indices: seq<nat>, units: seq<int>)
    requires Inv(base, s, {}, -1, 0, []) && Link(base, s.cc, s.store, s.imp, indices, units)
    requires RootsHeld(s.cc, s.store, units, s.level, s.trail) && Unsatisfied(s.cc, s.store, indices, s.value)
    ensures exists id: nat, i: nat, j: nat :: OpenPairAt(s.cc, s.store, indices, s.value, id, i, j)
  {
    hide Inv;
    hide Link;
    hide RootsHeld;
    hide OpenTwice;
    var id :| 0 <= id < |s.store| && (id < s.cc || id in indices) && !SomeTrue(s.value, s.store[id]);
    ClauseOpen(base, s, indices, units, id);
    var i, j := OpenPair(s.value, s.store[id]);
    assert OpenPairAt(s.cc, s.store, indices, s.value, id, i, j);
  }

  lemma UnitsTrue(s: State, units: seq<int>)
    requires RootsHeld(s.cc, s.store, units, s.level, s.trail) && forall i :: 0 <= i < |s.trail| ==> Val(s.value, s.trail[i]) == 1
    ensures forall id :: 0 <= id < s.cc && id < |s.store| && |s.store[id]| == 1 ==> SomeTrue(s.value, s.store[id])
  {
    forall id | 0 <= id < s.cc && id < |s.store| && |s.store[id]| == 1 ensures SomeTrue(s.value, s.store[id]) {
      assert s.store[id][0] in s.trail;
    }
  }

  lemma OpenPair(value: seq<int>, c: seq<int>) returns (i: nat, j: nat)
    requires OpenTwice(value, c) && !SomeTrue(value, c)
    ensures i < j < |c| && Val(value, c[i]) == 0 && Val(value, c[j]) == 0
  {
    i, j :| 0 <= i < j < |c| && Val(value, c[i]) == 0 && Val(value, c[j]) == 0;
  }

  /** The stored clauses, whatever is assigned. */
  ghost predicate Archive(base: seq<seq<int>>, vc: nat, cc: nat, store: seq<seq<int>>, imp: map<int, seq<int>>,
                          watch: map<int, seq<nat>>) {
    StoreShape(vc, cc, store) && ListShape(vc, imp, watch) && Filed(cc, store, watch) && StoreSound(base, store, imp)
  }

  lemma StoredByInv(base: seq<seq<int>>, s: State)
    requires Inv(base, s, {}, -1, 0, [])
    ensures Archive(base, s.vc, s.cc, s.store, s.imp, s.watch)
    ensures |s.value| == |s.level| == |s.ante| == s.vc + 1 && s.value[0] == 0
  {
  }

  lemma SearchOn(base: seq<seq<int>>, s: State, t: State, indices: seq<nat>, units: seq<int>)
    requires Link(base, s.cc, s.store, s.imp, indices, units) && RootsHeld(s.cc, s.store, units, s.level, s.trail) && s.cc <= |s.store|
    requires t.vc == s.vc && t.cc == s.cc && t.imp == s.imp && Inv(base, t, {}, -1, 0, [])
    requires Evolves(s.cc, s.store, t.store) && RootsKept(s.level, s.trail, t.level, t.trail)
    ensures Link(base, t.cc, t.store, t.imp, indices, units) && RootsHeld(t.cc, t.store, units, t.level, t.trail)
    ensures Archive(base, t.vc, t.cc, t.store, t.imp, t.watch) && |t.value| == |t.level| == |t.ante| == t.vc + 1 && t.value[0] == 0
  {
    hide Inv;
    hide Link;
    hide RootsHeld;
    hide Evolves;
    hide RootsKept;
    hide Archive;
    LinkKept(base, s.cc, s.store, s.imp, indices, units, t.store);
    RootsHeldKept(s.cc, s.store, units, s.level, s.trail, t.store, t.level, t.trail);
    StoredByInv(base, t);
  }

  lemma StoreSize(cc: nat, store: seq<seq<int>>, store': seq<seq<int>>)
    requires Evolves(cc, store, store')
    ensures |store| <= |store'|
  {
  }

  lemma LinkSizes(base: seq<seq<int>>, cc: nat, store: seq<seq<int>>, imp: map<int, seq<int>>, indices: seq<nat>, units: seq<int>)
    requires Link(base, cc, store, imp, indices, units)
    ensures forall i :: 0 <= i < |indices| ==> indices[i] < |store|
  {
  }

  lemma TrimmedFrees(cc: nat, store: seq<seq<int>>, indices: seq<nat>, units: seq<int>, value: seq<int>, value': seq<int>)
    requires Trimmed(cc, store, indices, units, value, value')
    ensures forall x :: Val(value', x) == Val(value, x) || Val(value', x) == 0
  {
  }

  ghost predicate InRange(value: seq<int>) {
    forall v :: 0 <= v < |value| ==> -1 <= value[v] <= 1
  }

  lemma TrimmedZero(cc: nat, store: seq<seq<int>>, indices: seq<nat>, units: seq<int>, value: seq<int>, value': seq<int>)
    requires Trimmed(cc, store, indices, units, value, value') && |value| == |value'| >= 1 && value[0] == 0
    requires forall x :: -1 <= Val(value, x) <= 1
    ensures value'[0] == 0 && InRange(value')
  {
    assert Val(value', 0) == Val(value, 0) || Val(value', 0) == 0;
    forall v: int | 1 <= v < |value'| ensures -1 <= value'[v] <= 1 {
      assert Val(value', v) == Val(value, v) || Val(value', v) == 0;
    }
  }

  /** Two free literals of an unsatisfied clause of the formula or of a blocking clause. */
  ghost predicate OpenPairAt(cc: nat, store: seq<seq<int>>, indices: seq<nat>, value: seq<int>, id: nat, i: nat, j: nat) {
    && id < |store| && (id < cc || id in indices) && i < j < |store[id]|
    && store[id][i] != store[id][j] && Val(value, store[id][i]) == 0 && Val(value, store[id][j]) == 0 && !SomeTrue(value, store[id])
  }

  // ---------------------------------------- the root level, on values

  /** Level 1 with literals placed whose consequences have not been drawn. */
  ghost predicate RootState(base: seq<seq<int>>, s: State) {
    && s.dLevel == 1 && VarsShape(s.vc, s.value, s.level, s.ante) && TrailOk(s.vc, s.value, s.level, s.trail, s.dLevel)
    && RootSound(base, s.level, s.trail) && Archive(base, s.vc, s.cc, s.store, s.imp, s.watch)
  }

  lemma RootFacts(base: seq<seq<int>>, s: State)
    requires RootState(base, s)
    ensures |s.value| == |s.level| == |s.ante| == s.vc + 1 && s.value[0] == 0 && forall x :: -1 <= Val(s.value, x) <= 1
    ensures s.dLevel == 1 && TrailOk(s.vc, s.value, s.level, s.trail, s.dLevel) && Archive(base, s.vc, s.cc, s.store, s.imp, s.watch)
  {
  }

  lemma RootStart(base: seq<seq<int>>, s: State)
    requires s.dLevel == 1 && s.trail == [] && |s.value| == |s.level| == |s.ante| == s.vc + 1 && Archive(base, s.vc, s.cc, s.store, s.imp, s.watch)
    requires forall v :: 0 <= v <= s.vc ==> s.value[v] == 0
    ensures RootState(base, s)
  {
    hide Archive;
  }

  lemma SkipStart(value: seq<int>, varOrder: seq<nat>)
    ensures SkipOk(value, varOrder, 0, {})
  {
  }

  /** All the work is still to be done, so nothing is out of order. */
  lemma RootInv(base: seq<seq<int>>, s: State)
    requires RootState(base, s)
    ensures Inv(base, s, Elems(s.trail), -1, 0, [])
  {
    TrailFacts(s.vc, s.value, s.level, s.trail, s.dLevel);
    forall x | LitOk(s.vc, x) && Val(s.value, x) == -1 ensures -x in Elems(s.trail) {
      assert Val(s.value, -x) == 1;
    }
    assert forall id: nat :: Watched(s.cc, s.store, id) ==> ClauseShape(s.vc, s.store[id]);
    RootAntes(s);
    hide TrailOk;
    hide AntesOk;
    hide Filed;
    hide StoreSound;
    hide RootSound;
    RootWatches(s.vc, s.cc, s.store, s.value, s.level, Elems(s.trail));
  }

  lemma RootAntes(s: State)
    requires TrailOk(s.vc, s.value, s.level, s.trail, s.dLevel) && s.dLevel <= 1
    ensures AntesOk(s.vc, s.store, s.imp, s.level, s.ante, s.trail) && TodoOk(s.vc, s.value, s.level, 1, Elems(s.trail))
  {
    forall i: nat | i < |s.trail| ensures AnteOk(s.vc, s.store, s.imp, s.level, s.ante, s.trail, i) {
      assert Lev(s.level, s.trail[i]) <= 1;
    }
  }

  lemma RootWatches(vc: nat, cc: nat, store: seq<seq<int>>, value: seq<int>, level: seq<nat>, todo: set<int>)
    requires StoreShape(vc, cc, store) && forall x :: LitOk(vc, x) && Val(value, x) == -1 ==> -x in todo
    ensures WatchesDone(cc, store, value, level, todo, -1, 0, [])
  {
    forall id: nat, w | Watched(cc, store, id) && 0 <= w <= 1 && Val(value, store[id][w]) == -1 ensures -store[id][w] in todo {
      assert ClauseShape(vc, store[id]);
    }
  }

  lemma RootPlaced(base: seq<seq<int>>, s: State, u: int)
    requires RootState(base, s) && LitOk(s.vc, u) && Val(s.value, u) == 0 && Entails(base, [u])
    ensures |s.value| == |s.level| == |s.ante| == s.vc + 1 && RootState(base, Place(s, u, Root))
  {
    hide Archive;
    hide Entails;
    PlaceTrail(s.vc, s.value, s.level, s.trail, s.dLevel, u);
    hide TrailOk;
    PlaceLevs(s.level, u, 1);
    RootSoundPlaced(base, s.value, s.level, s.trail, u);
  }

  lemma RootSoundPlaced(base: seq<seq<int>>, value: seq<int>, level: seq<nat>, trail: seq<int>, u: int)
    requires RootSound(base, level, trail) && 1 <= VarOf(u) < |level| && Entails(base, [u]) && forall i :: 0 <= i < |trail| ==> Lev(level, trail[i]) <= 1
    ensures RootSound(base, level[VarOf(u) := 1], trail + [u])
  {
    hide Entails;
  }

  lemma RootRefuted(base: seq<seq<int>>, s: State, u: int)
    requires RootState(base, s) && LitOk(s.vc, u) && Val(s.value, u) == -1 && Entails(base, [u])
    ensures !Satisfiable(base)
  {
    TrailFacts(s.vc, s.value, s.level, s.trail, s.dLevel);
    assert Val(s.value, -u) == 1;
    hide TrailOk;
    hide RootSound;
    hide Archive;
    hide Entails;
    var c := [u];
    RootConflict(base, s, c);
  }

  /** Taking entry p off the stack, moving the top into its place and pushing the entry again only permutes the stack. */
  lemma Scrambled(base: seq<seq<int>>, s: State, p: nat)
    requires p < |s.trail| && s.dLevel == 1 && Inv(base, s, Elems(s.trail[..p + 1]), -1, 0, [])
    ensures var l := s.trail[p]; LitOk(s.vc, l) && Val(s.value, l) == 1 && |s.value| == |s.level| == |s.ante| == s.vc + 1
    ensures var l := s.trail[p]; var t := s.(trail := s.trail[p := s.trail[|s.trail| - 1]][..|s.trail| - 1]);
      && p <= |t.trail| && t.trail[..p] == s.trail[..p]
      && Inv(base, Place(t, l, Root), Elems(t.trail[..p]) + {l}, -1, 0, [])
      && RootsKept(s.level, s.trail, Place(t, l, Root).level, t.trail + [l])
  {
    hide AntesOk;
    hide Filed;
    hide StoreSound;
    hide RootSound;
    hide StoreShape;
    hide ListShape;
    hide WatchesDone;
    hide BinariesDone;
    hide TrailOk;
    hide RootsKept;
    hide TodoOk;
    var l := s.trail[p];
    var n := |s.trail| - 1;
    var t := s.(trail := s.trail[p := s.trail[n]][..n]);
    RootLiteral(s.vc, s.value, s.level, s.trail, p);
    SameAssignment(s.value, s.level, l);
    assert t.trail[..p] == s.trail[..p];
    TodoTop(s.trail, p);
    ScrambledTrail(s.trail, p);
    PermutedTrail(base, s, t.trail + [l], s.ante[VarOf(l) := Root]);
  }

  lemma RootLiteral(vc: nat, value: seq<int>, level: seq<nat>, trail: seq<int>, p: nat)
    requires TrailOk(vc, value, level, trail, 1) && p < |trail|
    ensures LitOk(vc, trail[p]) && Val(value, trail[p]) == 1 && Lev(level, trail[p]) == 1
  {
  }

  lemma SameAssignment(value: seq<int>, level: seq<nat>, l: int)
    requires 1 <= VarOf(l) < |value| == |level| && Val(value, l) == 1 && Lev(level, l) == 1
    ensures value[VarOf(l) := SignOf(l)] == value && level[VarOf(l) := 1] == level
  {
  }

  lemma TodoTop(trail: seq<int>, p: nat)
    requires p < |trail|
    ensures Elems(trail[..p + 1]) == Elems(trail[..p]) + {trail[p]}
  {
    assert trail[..p + 1] == trail[..p] + [trail[p]];
  }

  lemma ScrambledTrail(trail: seq<int>, p: nat)
    requires p < |trail|
    ensures var t := trail[p := trail[|trail| - 1]][..|trail| - 1] + [trail[p]];
      |t| == |trail| && (NoDuplicates(trail) ==> NoDuplicates(t)) && forall x :: x in t <==> x in trail
  {
    var n := |trail| - 1;
    var t := trail[p := trail[n]][..n] + [trail[p]];
    forall k | 0 <= k <= n ensures t[k] == trail[if k == n then p else if k == p then n else k] {
    }
    forall x | x in trail ensures x in t {
      var k :| 0 <= k <= n && trail[k] == x;
      assert t[if k == n then p else if k == p then n else k] == x;
    }
  }

  lemma PermutedTrail(base: seq<seq<int>>, s: State, trail: seq<int>, ante: seq<Ante>)
    requires TrailOk(s.vc, s.value, s.level, s.trail, s.dLevel) && s.dLevel == 1 && RootSound(base, s.level, s.trail)
    requires NoDuplicates(s.trail) ==> NoDuplicates(trail)
    requires forall x :: x in trail <==> x in s.trail
    ensures TrailOk(s.vc, s.value, s.level, trail, 1) && AntesOk(s.vc, s.store, s.imp, s.level, ante, trail) && RootSound(base, s.level, trail)
    ensures RootsKept(s.level, s.trail, s.level, trail)
  {
    hide Entails;
    forall i | 0 <= i < |trail| ensures LitOk(s.vc, trail[i]) && Val(s.value, trail[i]) == 1 && Lev(s.level, trail[i]) == 1 {
      var x := trail[i];
      assert x in trail;
      var j :| 0 <= j < |s.trail| && s.trail[j] == x;
    }
    forall i | 0 <= i < |trail| ensures Entails(base, [trail[i]]) {
      var x := trail[i];
      assert x in trail;
      var j :| 0 <= j < |s.trail| && s.trail[j] == x;
    }
    RootAntes(s.(trail := trail, ante := ante));
  }

  lemma RootsHeldAtRoot(base: seq<seq<int>>, s: State, units: seq<int>)
    requires RootState(base, s) && forall j :: 0 <= j < |units| ==> units[j] in s.trail
    requires forall j :: 0 <= j < s.cc && j < |s.store| && |s.store[j]| == 1 ==> s.store[j][0] in s.trail
    ensures RootsHeld(s.cc, s.store, units, s.level, s.trail)
  {
  }

  lemma PrefixMembers(a: seq<int>, b: seq<int>)
    requires a <= b
    ensures forall x :: x in a ==> x in b
  {
  }

  /** The unit clauses put back by a reset are clauses of the base formula, or have been added to it. */
  lemma LinkedUnits(base: seq<seq<int>>, vc: nat, cc: nat, store: seq<seq<int>>, imp: map<int, seq<int>>,
                    watch: map<int, seq<nat>>,
                    indices: seq<nat>, units: seq<int>)
    requires Archive(base, vc, cc, store, imp, watch) && Link(base, cc, store, imp, indices, units)
    ensures cc <= |store| && forall i :: 0 <= i < |units| ==> Entails(base, [units[i]])
    ensures forall id :: 0 <= id < cc && |store[id]| == 1 ==> Entails(base, [store[id][0]]) && LitOk(vc, store[id][0])
  {
    forall id | 0 <= id < cc && |store[id]| == 1 ensures Entails(base, [store[id][0]]) && LitOk(vc, store[id][0]) {
      assert store[id] == [store[id][0]] && ClauseShape(vc, store[id]);
    }
  }

  // ------------------------------------------------- adding to the base formula

  lemma ArchiveLists(base: seq<seq<int>>, vc: nat, cc: nat, store: seq<seq<int>>, imp: map<int, seq<int>>,
                     watch: map<int, seq<nat>>)
    requires Archive(base, vc, cc, store, imp, watch)
    ensures ListShape(vc, imp, watch)
  {
  }

  lemma ArchiveSize(base: seq<seq<int>>, vc: nat, cc: nat, store: seq<seq<int>>, imp: map<int, seq<int>>,
                    watch: map<int, seq<nat>>)
    requires Archive(base, vc, cc, store, imp, watch)
    ensures cc <= |store|
  {
  }

  lemma EntailsGrows(base: seq<seq<int>>, d: seq<int>, c: seq<int>)
    requires Entails(base, c)
    ensures Entails(base + [d], c)
  {
    forall a: Assignment | Models(a, base + [d]) ensures Satisfies(a, c) {
      forall e | e in base ensures Satisfies(a, e) {
        assert e in base + [d];
      }
      assert Models(a, base);
    }
  }

  lemma ArchiveGrows(base: seq<seq<int>>, d: seq<int>, vc: nat, cc: nat, store: seq<seq<int>>,
                     imp: map<int, seq<int>>, watch: map<int, seq<nat>>)
    requires Archive(base, vc, cc, store, imp, watch)
    ensures Archive(base + [d], vc, cc, store, imp, watch)
  {
    hide Entails;
    hide Filed;
    hide StoreShape;
    hide ListShape;
    forall c | Entails(base, c) ensures Entails(base + [d], c) {
      EntailsGrows(base, d, c);
    }
  }

  lemma ArrangedSame(c: seq<int>, vc: nat)
    requires c != [] && ClauseShape(vc, c)
    ensures ClauseShape(vc, Arranged(c)) && |Arranged(c)| == |c| && Same(c, Arranged(c))
  {
    hide ClauseShape;
    hide Same;
    if |c| == 1 {
      SameItself(c);
    } else {
      var d := Arranged(c);
      assert d == [c[|c| - 1]] + c[..|c| - 1];
      RotatedBack(c, d, vc);
    }
  }

  lemma SameItself(c: seq<int>)
    ensures Same(c, c)
  {
  }

  lemma RotatedBack(c: seq<int>, d: seq<int>, vc: nat)
    requires ClauseShape(vc, c) && c != [] && |d| == |c| && forall k :: 0 <= k < |d| ==> d[k] == c[if k == 0 then |c| - 1 else k - 1]
    ensures ClauseShape(vc, d) && Same(c, d)
  {
    forall x | x in c ensures x in d {
      var k :| 0 <= k < |c| && c[k] == x;
      assert d[if k == |c| - 1 then 0 else k + 1] == x;
    }
  }

  lemma ArchiveAdds(base: seq<seq<int>>, vc: nat, cc: nat, store: seq<seq<int>>, imp: map<int, seq<int>>,
                    watch: map<int, seq<nat>>, c: seq<int>, d: seq<int>)
    requires Archive(base, vc, cc, store, imp, watch) && ClauseShape(vc, c) && |c| >= 2 && d in base && Same(d, c)
    ensures c[0] != c[1] && c[0] in watch && c[1] in watch
    ensures Archive(base, vc, cc, store + [c], imp, watch[c[0] := watch[c[0]] + [|store|]][c[1] := watch[c[1]] + [|store|]])
  {
    hide StoreShape;
    hide ListShape;
    hide Filed;
    hide StoreSound;
    hide ClauseShape;
    hide Entails;
    AddedLists(vc, imp, watch, c, |store|);
    CountInStore(vc, cc, store);
    AddedFiled(cc, store, watch, c);
    SameEntailed(base, d, c);
    AddedStore(base, vc, cc, store, imp, c);
  }

  lemma SameEntailed(base: seq<seq<int>>, d: seq<int>, c: seq<int>)
    requires d in base && Same(d, c)
    ensures Entails(base, c)
  {
    forall a: Assignment | Models(a, base) ensures Satisfies(a, c) {
      assert Satisfies(a, d);
    }
  }

  lemma LinkUnit(base: seq<seq<int>>, cc: nat, store: seq<seq<int>>, imp: map<int, seq<int>>, indices: seq<nat>,
                 units: seq<int>, c: seq<int>)
    requires Link(base, cc, store, imp, indices, units) && |c| == 1
    ensures Link(base + [c], cc, store, imp, indices, units + [c[0]])
  {
    hide Same;
    var units' := units + [c[0]];
    forall d | d in base + [c] ensures Held(d, cc, store, indices, units') {
      if d == c {
        assert c == [units'[|units|]];
      } else {
        assert d in base && Held(d, cc, store, indices, units);
        assert forall i :: 0 <= i < |units| ==> units'[i] == units[i];
      }
    }
    hide Held;
  }

  lemma LinkClause(base: seq<seq<int>>, cc: nat, store: seq<seq<int>>, imp: map<int, seq<int>>, indices: seq<nat>,
                   units: seq<int>, c: seq<int>, d: seq<int>)
    requires Link(base, cc, store, imp, indices, units) && Same(c, d) && cc <= |store|
    ensures Link(base + [c], cc, store + [d], imp, indices + [|store|], units)
  {
    hide Same;
    var store', indices' := store + [d], indices + [|store|];
    forall e | e in base + [c] ensures Held(e, cc, store', indices', units) {
      if e in base {
        HeldWider(e, cc, store, indices, units, store', indices');
      } else {
        assert e == c && Same(c, store'[indices'[|indices|]]);
      }
    }
    hide Held;
  }

  lemma HeldWider(c: seq<int>, cc: nat, store: seq<seq<int>>, indices: seq<nat>, units: seq<int>,
                  store': seq<seq<int>>, indices': seq<nat>)
    requires Held(c, cc, store, indices, units) && store <= store' && indices <= indices'
    ensures Held(c, cc, store', indices', units)
  {
    hide Same;
    if id :| 0 <= id < cc && id < |store| && Same(c, store[id]) {
      assert Same(c, store'[id]);
    } else if i :| 0 <= i < |indices| && indices[i] < |store| && Same(c, store[indices[i]]) {
      assert indices'[i] == indices[i] && Same(c, store'[indices'[i]]);
    }
  }

  lemma UnitLits(vc: nat, c: seq<int>)
    requires ClauseShape(vc, c) && |c| == 1
    ensures LitOk(vc, c[0])
  {
  }

  // ------------------------------------------------- loading, on values

  function EmptyLists<T>(vc: nat): map<int, seq<T>> {
    var v: int := vc;
    map l: int | -v <= l <= v && LitOk(vc, l) :: []
  }

  function EmptySlots(vc: nat): map<int, int> {
    var v: int := vc;
    map l: int | -v <= l <= v && LitOk(vc, l) :: 0
  }

  /** The score of v is positive: it occurs in a clause of two or more literals. */
  predicate Scored(store: seq<seq<int>>, v: nat) {
    var w: int := v;
    exists id :: 0 <= id < |store| && |store[id]| >= 2 && (w in store[id] || -w in store[id])
  }

  /** How many clauses of two or more literals have l. */
  ghost function Occurrences(f: seq<seq<int>>, l: int): nat {
    if f == [] then 0 else Occurrences(f[..|f| - 1], l) + if |f[|f| - 1]| >= 2 && l in f[|f| - 1] then 1 else 0
  }

  /** Every clause of two or more literals counts once for each of its literals. */
  ghost predicate Tallied(vc: nat, f: seq<seq<int>>, activity: seq<Activity>) {
    TalliedTo(vc, f, [], activity)
  }

  /** ... and those in lits have been counted once more. */
  ghost predicate TalliedTo(vc: nat, f: seq<seq<int>>, lits: seq<int>, activity: seq<Activity>) {
    |activity| == vc + 1 && forall v: int :: 1 <= v <= vc ==>
      activity[v] == Activity(Occurrences(f, -v) + if -v in lits then 1 else 0, Occurrences(f, v) + if v in lits then 1 else 0)
  }

  lemma TalliedNone(vc: nat, activity: seq<Activity>)
    requires activity == seq(vc + 1, i => Activity(0, 0))
    ensures Tallied(vc, [], activity)
  {
  }

  lemma TalliedLit(vc: nat, f: seq<seq<int>>, c: seq<int>, k: nat, activity: seq<Activity>)
    requires k < |c| && TalliedTo(vc, f, c[..k], activity) && ClauseShape(vc, c)
    ensures VarOf(c[k]) < |activity| && TalliedTo(vc, f, c[..k + 1], Bumped(activity, c[k]))
  {
    assert c[..k + 1] == c[..k] + [c[k]];
    assert c[k] !in c[..k];
  }

  /** The implication list of l: the other literals of its binary clauses, in the order of the formula. */
  function Partners(f: seq<seq<int>>, l: int): seq<int> {
    if f == [] then []
    else
      var c := f[|f| - 1];
      Partners(f[..|f| - 1], l) + if |c| == 2 && c[0] == l then [c[1]] else if |c| == 2 && c[1] == l then [c[0]] else []
  }

  ghost predicate ListsAre(vc: nat, f: seq<seq<int>>, imp: map<int, seq<int>>) {
    forall l :: LitOk(vc, l) ==> l in imp && imp[l] == Partners(f, l)
  }

  lemma ListsNone(vc: nat, imp: map<int, seq<int>>)
    requires forall l :: LitOk(vc, l) ==> l in imp && imp[l] == []
    ensures ListsAre(vc, [], imp)
  {
  }

  lemma ListsStart(base: seq<seq<int>>, s: State)
    requires RootState(base, s) && forall l :: l in s.imp ==> s.imp[l] == []
    ensures ListsAre(s.vc, [], s.imp)
  {
    RootFacts(base, s);
    ListsNone(s.vc, s.imp);
  }

  lemma ListsOther(vc: nat, f: seq<seq<int>>, imp: map<int, seq<int>>, c: seq<int>)
    requires ListsAre(vc, f, imp) && |c| != 2
    ensures ListsAre(vc, f + [c], imp)
  {
    assert (f + [c])[..|f|] == f;
  }

  lemma ListsBinary(vc: nat, f: seq<seq<int>>, imp: map<int, seq<int>>, c: seq<int>)
    requires ListsAre(vc, f, imp) && |c| == 2 && c[0] in imp && c[1] in imp && c[0] != c[1]
    ensures ListsAre(vc, f + [c], imp[c[0] := imp[c[0]] + [c[1]]][c[1] := imp[c[1]] + [c[0]]])
  {
    assert (f + [c])[..|f|] == f;
  }

  /** Every variable of the order prefers the sign it has more often. */
  ghost predicate SignsSet(vc: nat, activity: seq<Activity>, varOrder: seq<nat>, phase: seq<bool>) {
    |phase| == |activity| == vc + 1 && forall v :: v in varOrder ==> v <= vc && (phase[v] <==> activity[v].pos > activity[v].neg)
  }

  lemma SignsNone(vc: nat, activity: seq<Activity>, phase: seq<bool>)
    requires |phase| == |activity| == vc + 1
    ensures SignsSet(vc, activity, [], phase)
  {
  }

  lemma SignsMore(vc: nat, activity: seq<Activity>, varOrder: seq<nat>, phase: seq<bool>, q: nat, v: nat)
    requires SignsSet(vc, activity, varOrder, phase) && q <= |varOrder| && v <= vc
    ensures SignsSet(vc, activity, varOrder[..q] + [v] + varOrder[q..], phase[v := activity[v].pos > activity[v].neg])
  {
    forall x | x in varOrder[..q] + [v] + varOrder[q..] ensures x == v || x in varOrder {
    }
  }

  lemma TalliedUnit(vc: nat, f: seq<seq<int>>, c: seq<int>, activity: seq<Activity>)
    requires Tallied(vc, f, activity) && |c| < 2
    ensures Tallied(vc, f + [c], activity)
  {
    TalliedClause(vc, f, c, activity);
  }

  lemma TalliedSize(vc: nat, f: seq<seq<int>>, activity: seq<Activity>)
    requires Tallied(vc, f, activity)
    ensures |activity| == vc + 1
  {
  }

  lemma TalliedClause(vc: nat, f: seq<seq<int>>, c: seq<int>, activity: seq<Activity>)
    requires TalliedTo(vc, f, if |c| >= 2 then c else [], activity)
    ensures Tallied(vc, f + [c], activity)
  {
    var g := f + [c];
    assert g[..|g| - 1] == f && g[|g| - 1] == c;
  }

  lemma {:induction false} OccursScored(f: seq<seq<int>>, l: int)
    ensures Occurrences(f, l) > 0 <==> exists id :: 0 <= id < |f| && |f[id]| >= 2 && l in f[id]
    decreases |f|
  {
    if f != [] {
      var g := f[..|f| - 1];
      OccursScored(g, l);
      if id :| 0 <= id < |g| && |g[id]| >= 2 && l in g[id] {
        assert f[id] == g[id];
      }
      if id :| 0 <= id < |f| && |f[id]| >= 2 && l in f[id] {
        assert id == |f| - 1 || g[id] == f[id];
      }
    }
  }

  lemma ScoredPositive(vc: nat, f: seq<seq<int>>, activity: seq<Activity>, v: int)
    requires Tallied(vc, f, activity) && 1 <= v <= vc
    ensures ScoreOf(activity, v) > 0 <==> Scored(f, v)
  {
    OccursScored(f, v);
    OccursScored(f, -v);
  }

  ghost predicate AllOrdered(vc: nat, store: seq<seq<int>>, value: seq<int>, varOrder: seq<nat>) {
    |value| == vc + 1 && forall v :: v in varOrder <==> 1 <= v <= vc && value[v] == 0 && Scored(store, v)
  }

  /** v may stand at place q of a sorted order. */
  predicate FitsAt(activity: seq<Activity>, s: seq<nat>, q: nat, v: nat)
    requires q <= |s|
  {
    (q > 0 ==> ScoreOf(activity, s[q - 1]) >= ScoreOf(activity, v)) && (q < |s| ==> ScoreOf(activity, s[q]) <= ScoreOf(activity, v))
  }

  lemma InsertSorted(activity: seq<Activity>, s: seq<nat>, q: nat, v: nat)
    requires q <= |s| && SortedByScore(activity, s) && FitsAt(activity, s, q, v)
    ensures SortedByScore(activity, s[..q] + [v] + s[q..])
  {
    var t := s[..q] + [v] + s[q..];
    forall i, j | 0 <= i <= j < |t| ensures ScoreOf(activity, t[i]) >= ScoreOf(activity, t[j]) {
      assert t[i] == if i < q then s[i] else if i == q then v else s[i - 1];
      assert t[j] == if j < q then s[j] else if j == q then v else s[j - 1];
      assert i < q ==> ScoreOf(activity, s[i]) >= ScoreOf(activity, s[q - 1]);
      assert j > q ==> ScoreOf(activity, s[q]) >= ScoreOf(activity, s[j - 1]);
    }
  }

  lemma SomeFit(activity: seq<Activity>, s: seq<nat>, v: nat)
    requires SortedByScore(activity, s)
    ensures exists q :: 0 <= q <= |s| && FitsAt(activity, s, q, v)
  {
    var q := |s|;
    while q > 0 && ScoreOf(activity, s[q - 1]) < ScoreOf(activity, v)
      invariant 0 <= q <= |s| && (q < |s| ==> ScoreOf(activity, s[q]) <= ScoreOf(activity, v))
    {
      q := q - 1;
    }
    assert FitsAt(activity, s, q, v);
  }

  lemma InsertDistinct(s: seq<nat>, q: nat, v: nat)
    requires NoDuplicates(s) && v !in s && q <= |s|
    ensures NoDuplicates(s[..q] + [v] + s[q..])
    ensures forall x :: x in s[..q] + [v] + s[q..] <==> x in s || x == v
  {
    var t := s[..q] + [v] + s[q..];
    forall x | x in s ensures x in t {
      var i :| 0 <= i < |s| && s[i] == x;
      assert t[if i < q then i else i + 1] == x;
    }
    assert t[q] == v;
  }

  /** What has been loaded is in place, and nothing else is. */
  ghost predicate Loaded(store: seq<seq<int>>, imp: map<int, seq<int>>, trail: seq<int>) {
    && (forall id :: 0 <= id < |store| ==>
         store[id] != [] && (|store[id]| == 2 ==> Implies(imp, store[id])) && (|store[id]| == 1 ==> store[id][0] in trail))
    && (forall l, o :: l in imp && o in imp[l] ==> [l, o] in store || [o, l] in store)
    && (forall i :: 0 <= i < |trail| ==> [trail[i]] in store)
  }

  lemma LoadedNone(imp: map<int, seq<int>>, trail: seq<int>)
    requires trail == [] && forall l :: l in imp ==> imp[l] == []
    ensures Loaded([], imp, trail)
  {
  }

  lemma LoadedMore(store: seq<seq<int>>, imp: map<int, seq<int>>, trail: seq<int>, c: seq<int>,
                   imp': map<int, seq<int>>, trail': seq<int>)
    requires Loaded(store, imp, trail) && c != [] && (|c| == 2 ==> Implies(imp', c)) && (|c| == 1 ==> c[0] in trail')
    requires trail <= trail' && forall l :: l in imp ==> l in imp' && imp[l] <= imp'[l]
    requires forall l, o :: l in imp' && o in imp'[l] ==> (l in imp && o in imp[l]) || c == [l, o] || c == [o, l]
    requires forall i :: |trail| <= i < |trail'| ==> c == [trail'[i]]
    ensures Loaded(store + [c], imp', trail')
  {
    var store' := store + [c];
    assert store'[|store|] == c && forall d :: d in store ==> d in store';
    forall id | 0 <= id < |store'| ensures |store'[id]| == 2 ==> Implies(imp', store'[id]) {
      if id < |store| && |store[id]| == 2 {
        assert Implies(imp, store[id]) && store'[id] == store[id];
        var l := store[id][0];
        assert l in imp && l in imp' && imp[l] <= imp'[l];
        PrefixMembers(imp[l], imp'[l]);
      }
    }
    forall x | x in trail ensures x in trail' {
    }
  }

  /** Filing a binary clause only adds its two implications. */
  lemma ListsGrow(imp: map<int, seq<int>>, c: seq<int>)
    requires |c| == 2 && c[0] in imp && c[1] in imp && c[0] != c[1]
    ensures var imp' := imp[c[0] := imp[c[0]] + [c[1]]][c[1] := imp[c[1]] + [c[0]]];
      && (forall l :: l in imp ==> l in imp' && imp[l] <= imp'[l])
      && forall l, o :: l in imp' && o in imp'[l] ==> (l in imp && o in imp[l]) || c == [l, o] || c == [o, l]
  {
    var imp' := imp[c[0] := imp[c[0]] + [c[1]]][c[1] := imp[c[1]] + [c[0]]];
    forall l, o | l in imp' && o in imp'[l] ensures (l in imp && o in imp[l]) || c == [l, o] || c == [o, l] {
      assert c == [c[0], c[1]];
    }
  }

  /** Without binary clauses the implication lists stay empty. */
  lemma LoadedLists(store: seq<seq<int>>, imp: map<int, seq<int>>, trail: seq<int>)
    requires Loaded(store, imp, trail)
    ensures (forall c :: c in store ==> |c| != 2) ==> !Listed(imp)
  {
    if Listed(imp) {
      var l :| l in imp && imp[l] != [];
      var o := imp[l][0];
      assert [l, o] in store || [o, l] in store;
      assert |[l, o]| == 2 && |[o, l]| == 2;
    }
  }

  lemma EmptySolver(base: seq<seq<int>>, s: State)
    requires s.dLevel == 1 && s.trail == [] && s.store == [] && s.cc == 0 && |s.value| == |s.level| == |s.ante| == s.vc + 1
    requires forall v :: 0 <= v <= s.vc ==> s.value[v] == 0
    requires forall l :: LitOk(s.vc, l) ==> l in s.imp && l in s.watch && s.imp[l] == [] && s.watch[l] == []
    requires (forall l :: l in s.watch ==> s.watch[l] == []) && forall l :: l in s.imp ==> s.imp[l] == []
    ensures RootState(base, s)
  {
  }

  lemma EmptyRefutes(base: seq<seq<int>>, c: seq<int>)
    requires c in base && c == []
    ensures !Satisfiable(base)
  {
  }

  lemma BaseEntails(base: seq<seq<int>>, c: seq<int>)
    requires c in base
    ensures Entails(base, c)
  {
  }

  lemma ClauseLits(vc: nat, c: seq<int>)
    requires ClauseShape(vc, c)
    ensures forall k :: 0 <= k < |c| ==> LitOk(vc, c[k])
    ensures |c| >= 2 ==> c[0] != c[1]
  {
  }

  lemma LoadStore(base: seq<seq<int>>, vc: nat, cc: nat, store: seq<seq<int>>, imp: map<int, seq<int>>, c: seq<int>)
    requires StoreShape(vc, cc, store) && cc == |store| && StoreSound(base, store, imp) && ClauseShape(vc, c) && Entails(base, c)
    ensures StoreShape(vc, cc + 1, store + [c]) && StoreSound(base, store + [c], imp)
  {
    hide Entails;
    hide ClauseShape;
  }

  /** The filing of the watched clauses does not depend on the others. */
  lemma FiledSame(cc: nat, store: seq<seq<int>>, cc': nat, store': seq<seq<int>>, watch: map<int, seq<nat>>)
    requires Filed(cc, store, watch) && forall id: nat :: Watched(cc', store', id) <==> Watched(cc, store, id)
    requires forall id: nat :: Watched(cc, store, id) ==> id < |store'| && store'[id] == store[id]
    ensures Filed(cc', store', watch)
  {
    forall id: nat, w | Watched(cc', store', id) && 0 <= w <= 1 ensures store'[id][w] in watch && id in watch[store'[id][w]] {
      assert Watched(cc, store, id);
    }
    forall l, id: nat | l in watch && id in watch[l] ensures Watched(cc', store', id) && (store'[id][0] == l || store'[id][1] == l) {
      assert Watched(cc, store, id);
    }
  }

  lemma LoadFiledShort(cc: nat, store: seq<seq<int>>, watch: map<int, seq<nat>>, c: seq<int>)
    requires Filed(cc, store, watch) && cc == |store| && |c| <= 2
    ensures Filed(cc + 1, store + [c], watch)
  {
    forall id: nat ensures Watched(cc + 1, store + [c], id) <==> Watched(cc, store, id) {
    }
    hide Filed;
    FiledSame(cc, store, cc + 1, store + [c], watch);
  }

  lemma RootShape(base: seq<seq<int>>, s: State)
    requires RootState(base, s)
    ensures ListShape(s.vc, s.imp, s.watch) && StoreSound(base, s.store, s.imp)
  {
  }

  lemma LoadShort(base: seq<seq<int>>, s: State, c: seq<int>, imp: map<int, seq<int>>)
    requires RootState(base, s) && s.cc == |s.store| && |c| <= 2 && ClauseShape(s.vc, c) && Entails(base, c)
    requires ListShape(s.vc, imp, s.watch) && StoreSound(base, s.store, imp)
    ensures RootState(base, s.(cc := s.cc + 1, store := s.store + [c], imp := imp))
  {
    hide TrailOk;
    hide RootSound;
    hide ListShape;
    hide Entails;
    hide ClauseShape;
    LoadStore(base, s.vc, s.cc, s.store, imp, c);
    LoadFiledShort(s.cc, s.store, s.watch, c);
    hide StoreShape;
    hide StoreSound;
    hide Filed;
  }

  lemma LoadBinary(base: seq<seq<int>>, s: State, c: seq<int>)
    requires RootState(base, s) && s.cc == |s.store| && |c| == 2 && ClauseShape(s.vc, c) && Entails(base, c)
    ensures c[0] in s.imp && c[1] in s.imp && c[0] != c[1]
    ensures var imp' := s.imp[c[0] := s.imp[c[0]] + [c[1]]][c[1] := s.imp[c[1]] + [c[0]]];
      RootState(base, s.(cc := s.cc + 1, store := s.store + [c], imp := imp')) && Implies(imp', c)
  {
    var imp' := s.imp[c[0] := s.imp[c[0]] + [c[1]]][c[1] := s.imp[c[1]] + [c[0]]];
    assert imp'[c[0]][|s.imp[c[0]]|] == c[1];
    BinaryShape(s.vc, s.imp, s.watch, c);
    BinarySound(base, s.store, s.imp, c);
    hide Implies;
    hide ListShape;
    hide StoreSound;
    LoadShort(base, s, c, imp');
  }

  lemma BinaryShape(vc: nat, imp: map<int, seq<int>>, watch: map<int, seq<nat>>, c: seq<int>)
    requires ListShape(vc, imp, watch) && |c| == 2 && ClauseShape(vc, c)
    ensures c[0] in imp && c[1] in imp && c[0] != c[1]
    ensures ListShape(vc, imp[c[0] := imp[c[0]] + [c[1]]][c[1] := imp[c[1]] + [c[0]]], watch)
  {
    var imp' := imp[c[0] := imp[c[0]] + [c[1]]][c[1] := imp[c[1]] + [c[0]]];
    assert imp'[c[0]][|imp[c[0]]|] == c[1] && imp'[c[1]][|imp[c[1]]|] == c[0];
    forall l, o | LitOk(vc, l) && o in imp'[l] ensures LitOk(vc, o) && o != l && l in imp'[o] {
      assert o in imp[l] || (l == c[0] && o == c[1]) || (l == c[1] && o == c[0]);
      assert l in imp[o] ==> l in imp'[o];
    }
  }

  lemma BinarySound(base: seq<seq<int>>, store: seq<seq<int>>, imp: map<int, seq<int>>, c: seq<int>)
    requires StoreSound(base, store, imp) && |c| == 2 && Entails(base, c) && c[0] in imp && c[1] in imp && c[0] != c[1]
    ensures StoreSound(base, store, imp[c[0] := imp[c[0]] + [c[1]]][c[1] := imp[c[1]] + [c[0]]])
  {
    var imp' := imp[c[0] := imp[c[0]] + [c[1]]][c[1] := imp[c[1]] + [c[0]]];
    assert c == [c[0], c[1]];
    assert Entails(base, [c[1], c[0]]) by {
      forall a: Assignment | Models(a, base) ensures Satisfies(a, [c[1], c[0]]) {
        assert Satisfies(a, c);
        assert forall x :: x in c ==> x in [c[1], c[0]];
      }
    }
    hide Entails;
    forall l, o | l in imp' && o in imp'[l] ensures Entails(base, [l, o]) {
      assert o in imp[l] || (l == c[0] && o == c[1]) || (l == c[1] && o == c[0]);
    }
  }

  lemma LoadLong(base: seq<seq<int>>, s: State, c: seq<int>)
    requires RootState(base, s) && s.cc == |s.store| && |c| >= 3 && ClauseShape(s.vc, c) && Entails(base, c)
    ensures c[0] in s.watch && c[1] in s.watch && c[0] != c[1]
    ensures var watch' := s.watch[c[0] := s.watch[c[0]] + [|s.store|]][c[1] := s.watch[c[1]] + [|s.store|]];
      RootState(base, s.(cc := s.cc + 1, store := s.store + [c], watch := watch'))
  {
    hide TrailOk;
    hide RootSound;
    hide Entails;
    AddedLists(s.vc, s.imp, s.watch, c, |s.store|);
    hide ListShape;
    hide ClauseShape;
    AddedFiled(s.cc, s.store, s.watch, c);
    LoadStore(base, s.vc, s.cc, s.store, s.imp, c);
    FiledLonger(s.cc, s.store, s.watch[c[0] := s.watch[c[0]] + [|s.store|]][c[1] := s.watch[c[1]] + [|s.store|]], c);
    hide StoreShape;
    hide StoreSound;
    hide Filed;
  }

  lemma FiledLonger(cc: nat, store: seq<seq<int>>, watch: map<int, seq<nat>>, c: seq<int>)
    requires Filed(cc, store + [c], watch) && cc == |store| && |c| >= 3
    ensures Filed(cc + 1, store + [c], watch)
  {
    forall id: nat ensures Watched(cc + 1, store + [c], id) <==> Watched(cc, store + [c], id) {
    }
    hide Filed;
    FiledSame(cc, store + [c], cc + 1, store + [c], watch);
  }

  /** Once the whole formula is loaded it is all held. */
  lemma LoadedLink(base: seq<seq<int>>, s: State)
    requires RootState(base, s) && s.store == base && s.cc == |s.store| && Loaded(s.store, s.imp, s.trail)
    ensures Link(base, s.cc, s.store, s.imp, [], []) && RootsHeld(s.cc, s.store, [], s.level, s.trail)
  {
    forall c | c in base ensures Held(c, s.cc, s.store, [], []) {
      var id :| 0 <= id < |base| && base[id] == c;
      assert Same(c, s.store[id]);
    }
    hide Held;
    hide Archive;
    hide VarsShape;
    hide RootSound;
    forall id | 0 <= id < s.cc && |s.store[id]| == 1 ensures Lev(s.level, s.store[id][0]) <= 1 {
      assert s.store[id][0] in s.trail;
    }
  }

  // ----------------------------------------------- the root level, kept

  /** Literals of the root level stay set. */
  ghost predicate RootsKept(level: seq<nat>, trail: seq<int>, level': seq<nat>, trail': seq<int>) {
    forall l :: l in trail && Lev(level, l) <= 1 ==> l in trail' && Lev(level', l) <= 1
  }

  lemma RootsSame(level: seq<nat>, trail: seq<int>)
    ensures RootsKept(level, trail, level, trail)
  {
  }

  lemma RootsPopped(level: seq<nat>, trail: seq<int>)
    requires trail != [] && Lev(level, trail[|trail| - 1]) >= 2
    ensures RootsKept(level, trail, level, trail[..|trail| - 1])
  {
    forall l | l in trail && Lev(level, l) <= 1 ensures l in trail[..|trail| - 1] {
      var i :| 0 <= i < |trail| && trail[i] == l;
      assert trail[..|trail| - 1][i] == l;
    }
  }

  function FreedAt(value: seq<int>, l: int): seq<int>
    requires VarOf(l) < |value|
  {
    value[VarOf(l) := 0]
  }

  /** The analysis has ended at the literal u: popped from the trail, the only one of its level in the resolvent. */
  ghost predicate UipFound(base: seq<seq<int>>, vc: nat, value: seq<int>, level: seq<nat>, trail: seq<int>, d: nat,
                           mark: seq<bool>,
                           tmp: seq<int>, u: int) {
    && LitOk(vc, u) && Val(value, u) == 0 && Lev(level, u) == d
    && Analysis(vc, level, trail, d, mark, tmp, {}) && EntailsUnion(base, tmp, {-u})
  }

  // ------------------------------------------------- the learned clause

  lemma AnalysisStart(vc: nat, level: seq<nat>, trail: seq<int>, d: nat, mark: seq<bool>)
    requires AllClear(vc, mark)
    ensures Analysis(vc, level, trail, d, mark, [], {})
  {
  }

  lemma SomeCurrent(level: seq<nat>, d: nat, c: seq<int>, cur: set<int>)
    requires d >= 2 && exists k :: 0 <= k < |c| && Lev(level, c[k]) == d
    requires forall k :: 0 <= k < |c| ==> InCurrent(level, d, c[k], cur)
    ensures |cur| >= 1
  {
    var k :| 0 <= k < |c| && Lev(level, c[k]) == d;
    assert InCurrent(level, d, c[k], cur);
  }

  lemma DistinctLower(vc: nat, level: seq<nat>, trail: seq<int>, d: nat, mark: seq<bool>, tmp: seq<int>)
    requires Analysis(vc, level, trail, d, mark, tmp, {})
    ensures NoDuplicates(tmp) && forall k :: 0 <= k < |tmp| ==> LitOk(vc, tmp[k]) && 2 <= Lev(level, tmp[k])
  {
    assert forall k :: 0 <= k < |tmp| ==> tmp[k] in tmp;
  }

  lemma ListsHold(base: seq<seq<int>>, s: State, b: nat, except: int)
    requires InvBelow(base, s, b, except)
    ensures ListShape(s.vc, s.imp, s.watch)
  {
  }

  lemma FalseLits(vc: nat, value: seq<int>, c: seq<int>, trail: seq<int>)
    requires |value| == vc + 1 && forall i :: 0 <= i < |trail| ==> Val(value, trail[i]) == 1
    requires forall k :: 0 <= k < |c| ==> LitOk(vc, c[k]) && -c[k] in trail
    ensures forall x :: x in c ==> LitOk(vc, x) && Val(value, x) != 0
  {
    forall x | x in c ensures LitOk(vc, x) && Val(value, x) != 0 {
      assert Val(value, -x) == 1;
    }
  }

  lemma UipUnfold(base: seq<seq<int>>, vc: nat, value: seq<int>, level: seq<nat>, trail: seq<int>, d: nat,
                  mark: seq<bool>, tmp: seq<int>, u: int)
    requires UipFound(base, vc, value, level, trail, d, mark, tmp, u)
    ensures Analysis(vc, level, trail, d, mark, tmp, {})
  {
  }

  lemma ArrangedBack(lits: seq<int>, x: int, vc: nat)
    requires ClauseShape(vc, [x] + lits)
    ensures Arranged(lits + [x]) == [x] + lits && ClauseShape(vc, lits + [x])
  {
    RotatedShape([x] + lits, lits + [x], vc);
    hide ClauseShape;
    assert lits != [] ==> (lits + [x])[1..|lits|] == lits[1..];
  }

  lemma RotatedShape(c: seq<int>, d: seq<int>, vc: nat)
    requires ClauseShape(vc, c) && c != [] && d == c[1..] + [c[0]]
    ensures ClauseShape(vc, d)
  {
    assert forall k :: 0 <= k < |d| ==> d[k] == c[if k == |c| - 1 then 0 else k + 1];
    hide LitOk;
    RotatedDistinct(c, d);
  }

  lemma RotatedDistinct(c: seq<int>, d: seq<int>)
    requires NoDuplicates(c) && c != [] && |d| == |c|
    requires forall k :: 0 <= k < |d| ==> d[k] == c[if k == |c| - 1 then 0 else k + 1]
    ensures NoDuplicates(d)
  {
  }

  lemma AnalysisOver(vc: nat, level: seq<nat>, trail: seq<int>, d: nat, mark: seq<bool>, tmp: seq<int>, mark': seq<bool>)
    requires Analysis(vc, level, trail, d, mark, tmp, {}) && |mark'| == |mark|
    requires (forall v :: 0 <= v < |mark| && mark'[v] ==> mark[v]) && forall j :: 0 <= j < |tmp| ==> !Marked(mark', tmp[j])
    ensures AllClear(vc, mark')
  {
    forall v | 0 <= v <= vc ensures !mark'[v] {
      if mark[v] {
        assert v in tmp || -v in tmp;
        var j :| 0 <= j < |tmp| && (tmp[j] == v || tmp[j] == -v);
        assert !Marked(mark', tmp[j]);
      }
    }
  }

  lemma SkipZero(vc: nat, value: seq<int>, varOrder: seq<nat>, varPosition: seq<nat>, ordered: set<nat>, nextVar: nat,
                 skipped: set<nat>)
    requires OrderOk(vc, varOrder, varPosition, ordered)
    ensures SkipOk(value, varOrder, nextVar, skipped) <==> SkipOk(value, varOrder, nextVar, skipped + {0})
  {
  }

  /** addClause writes the back of the deque first, then its front, then the rest. */
  function Arranged(lits: seq<int>): seq<int>
    requires lits != []
  {
    if |lits| == 1 then lits else [lits[|lits| - 1], lits[0]] + lits[1..|lits| - 1]
  }

  /** The literals kept by minimisation are those of tmp that are not redundant. */
  ghost predicate Kept(s: State, mark: seq<bool>, tmp: seq<int>, lits: seq<int>) {
    forall x :: x in lits <==> x in tmp && !Redundant(s.store, s.ante, mark, x)
  }

  /** The minimised clause is entailed and asserting for the highest level among its other literals. */
  lemma LearnedAsserts(base: seq<seq<int>>, s: State, mark: seq<bool>, tmp: seq<int>, lits: seq<int>, aLevel: nat, u: int)
    requires s.dLevel >= 2 && InvBelow(base, s, s.dLevel - 1, -1)
    requires UipFound(base, s.vc, s.value, s.level, s.trail, s.dLevel, mark, tmp, u)
    requires DequeOk(s.level, lits, aLevel) && Kept(s, mark, tmp, lits)
    ensures 1 <= aLevel < s.dLevel && ClauseShape(s.vc, [-u] + lits)
    ensures Entails(base, [-u] + lits) && Asserting(s.vc, s.value, s.level, [-u] + lits, aLevel)
  {
    LearnedShape(s, mark, tmp, lits, u);
    LearnedHolds(base, s, mark, tmp, lits, u);
    LearnedLevels(s, mark, tmp, lits, aLevel, u);
  }

  lemma LearnedShape(s: State, mark: seq<bool>, tmp: seq<int>, lits: seq<int>, u: int)
    requires LitOk(s.vc, u) && Lev(s.level, u) == s.dLevel && NoDuplicates(lits) && forall x :: x in lits ==> x in tmp
    requires Analysis(s.vc, s.level, s.trail, s.dLevel, mark, tmp, {})
    ensures ClauseShape(s.vc, [-u] + lits)
  {
    assert Lev(s.level, -u) == s.dLevel;
    forall k | 0 <= k < |lits| ensures LitOk(s.vc, lits[k]) && Lev(s.level, lits[k]) < s.dLevel {
      assert lits[k] in lits;
    }
  }

  lemma LearnedHolds(base: seq<seq<int>>, s: State, mark: seq<bool>, tmp: seq<int>, lits: seq<int>, u: int)
    requires s.dLevel >= 2 && InvBelow(base, s, s.dLevel - 1, -1)
    requires UipFound(base, s.vc, s.value, s.level, s.trail, s.dLevel, mark, tmp, u) && Kept(s, mark, tmp, lits)
    ensures Entails(base, [-u] + lits)
  {
    hide TrailOk;
    hide AntesOk;
    hide StoreSound;
    hide Analysis;
    hide EntailsUnion;
    hide Entails;
    hide Redundant;
    var c := [-u] + lits;
    assert c[0] == -u;
    LearnedEntailed(base, s, s.dLevel, mark, tmp, -u, c);
  }

  lemma LearnedLevels(s: State, mark: seq<bool>, tmp: seq<int>, lits: seq<int>, aLevel: nat, u: int)
    requires TrailOk(s.vc, s.value, s.level, s.trail, s.dLevel) && s.dLevel >= 2
    requires LitOk(s.vc, u) && Val(s.value, u) == 0 && Analysis(s.vc, s.level, s.trail, s.dLevel, mark, tmp, {})
    requires DequeOk(s.level, lits, aLevel) && forall x :: x in lits ==> x in tmp
    ensures 1 <= aLevel < s.dLevel && Asserting(s.vc, s.value, s.level, [-u] + lits, aLevel)
  {
    TrailFacts(s.vc, s.value, s.level, s.trail, s.dLevel);
    hide TrailOk;
    forall k | 0 <= k < |lits| ensures Val(s.value, lits[k]) == -1 && 2 <= Lev(s.level, lits[k]) < s.dLevel {
      assert lits[k] in lits;
      LowerFalse(s, mark, tmp, lits[k]);
    }
    hide Analysis;
    hide DequeOk;
    hide Val;
    hide Asserting;
    AssertingFront(s.vc, s.value, s.level, lits, aLevel, -u);
  }

  lemma LowerFalse(s: State, mark: seq<bool>, tmp: seq<int>, x: int)
    requires Analysis(s.vc, s.level, s.trail, s.dLevel, mark, tmp, {}) && x in tmp
    requires forall i :: 0 <= i < |s.trail| ==> LitOk(s.vc, s.trail[i]) && Val(s.value, s.trail[i]) == 1
    ensures Val(s.value, x) == -1 && 2 <= Lev(s.level, x) < s.dLevel
  {
    assert -x in s.trail;
    hide Analysis;
    var i :| 0 <= i < |s.trail| && s.trail[i] == -x;
  }

  lemma AssertingFront(vc: nat, value: seq<int>, level: seq<nat>, lits: seq<int>, aLevel: nat, x: int)
    requires DequeOk(level, lits, aLevel) && Val(value, x) == 0
    requires forall k :: 0 <= k < |lits| ==> Val(value, lits[k]) == -1 && 2 <= Lev(level, lits[k])
    ensures Asserting(vc, value, level, [x] + lits, aLevel)
  {
    hide Val;
    hide Lev;
    var c := [x] + lits;
    forall k | 1 <= k < |c| ensures Val(value, c[k]) == -1 && Lev(level, c[k]) <= aLevel {
      assert c[k] == lits[k - 1];
    }
  }

  /** Storing the learned clause, or keeping it aside when it is a unit. */
  lemma LearnedStored(base: seq<seq<int>>, s: State, c: seq<int>, aLevel: nat)
    requires 1 <= aLevel < s.dLevel && InvBelow(base, s, s.dLevel - 1, -1)
    requires ClauseShape(s.vc, c) && Entails(base, c) && Asserting(s.vc, s.value, s.level, c, aLevel)
    ensures |c| == 1 ==> LearnedOk(base, s, aLevel, Unit(c[0]))
    ensures |c| >= 2 ==> c[0] != c[1] && c[0] in s.watch && c[1] in s.watch
    ensures |c| >= 2 ==> LearnedOk(base, Added(s, c), aLevel, Clause(|s.store|))
  {
    hide InvBelow;
    hide Entails;
    LowerBound(base, s, s.dLevel - 1, aLevel, -1);
    if |c| >= 2 {
      hide ClauseShape;
      hide Asserting;
      hide LearnedUnit;
      AddedKeeps(base, s, aLevel, c);
      StoreHolds(base, s);
      assert Added(s, c).store[|s.store|] == c;
    } else {
      hide LearnedClause;
      assert c == [c[0]];
    }
  }

  lemma LearnedReady(base: seq<seq<int>>, s: State, mark: seq<bool>, tmp: seq<int>, lits: seq<int>, aLevel: nat, u: int)
    requires s.dLevel >= 2 && InvBelow(base, s, s.dLevel - 1, -1)
    requires UipFound(base, s.vc, s.value, s.level, s.trail, s.dLevel, mark, tmp, u)
    requires DequeOk(s.level, lits, aLevel) && Kept(s, mark, tmp, lits)
    ensures ClauseShape(s.vc, lits + [-u])
    ensures |lits| == 0 ==> LearnedOk(base, s, aLevel, Unit((lits + [-u])[0]))
    ensures |lits| >= 1 ==> var c := Arranged(lits + [-u]);
      |c| >= 2 && c[0] != c[1] && c[0] in s.watch && c[1] in s.watch && LearnedOk(base, Added(s, c), aLevel, Clause(|s.store|))
  {
    hide InvBelow;
    hide UipFound;
    hide DequeOk;
    hide Kept;
    hide LearnedOk;
    hide ClauseShape;
    hide Entails;
    hide Asserting;
    LearnedAsserts(base, s, mark, tmp, lits, aLevel, u);
    ArrangedBack(lits, -u, s.vc);
    LearnedStored(base, s, [-u] + lits, aLevel);
  }

  lemma StoreHolds(base: seq<seq<int>>, s: State)
    requires s.dLevel >= 1 && InvBelow(base, s, s.dLevel - 1, -1)
    ensures s.cc <= |s.store|
  {
  }

  /** What the caller may assume about a literal l popped from s, leaving t. */
  ghost predicate TopFacts(base: seq<seq<int>>, s: State, t: State, l: int) {
    && |s.value| == |s.level| == |s.ante| == s.vc + 1
    && |t.value| == |t.level| == |t.ante| == s.vc + 1
    && LitOk(s.vc, l) && Val(t.value, l) == 0
    && (forall i :: 0 <= i < |s.trail| ==> Val(s.value, s.trail[i]) == 1)
    && TrailOk(t.vc, t.value, t.level, t.trail, t.dLevel) && RootSound(base, t.level, t.trail)
  }

  lemma TopUnfold(base: seq<seq<int>>, s: State, t: State, l: int)
    requires TopFacts(base, s, t, l)
    ensures |s.value| == |s.level| == |s.ante| == |t.value| == s.vc + 1
    ensures LitOk(s.vc, l) && Val(t.value, l) == 0
    ensures forall i :: 0 <= i < |s.trail| ==> Val(s.value, s.trail[i]) == 1
    ensures TrailOk(t.vc, t.value, t.level, t.trail, t.dLevel) && RootSound(base, t.level, t.trail)
  {
  }

  lemma UipIntro(base: seq<seq<int>>, vc: nat, value: seq<int>, level: seq<nat>, trail: seq<int>, d: nat,
                 mark: seq<bool>, tmp: seq<int>, u: int)
    requires LitOk(vc, u) && Val(value, u) == 0 && Lev(level, u) == d
    requires Analysis(vc, level, trail, d, mark, tmp, {}) && EntailsUnion(base, tmp, {-u})
    ensures UipFound(base, vc, value, level, trail, d, mark, tmp, u)
  {
  }

  lemma PopFacts(base: seq<seq<int>>, s: State, b: nat)
    requires InvBelow(base, s, b, -1) && s.trail != [] && Lev(s.level, s.trail[|s.trail| - 1]) > b
    ensures VarOf(s.trail[|s.trail| - 1]) < |s.value| && TopFacts(base, s, Popped(s), s.trail[|s.trail| - 1])
  {
    var l := s.trail[|s.trail| - 1];
    TrailHolds(base, s, b, -1);
    PopKeeps(base, s, b, -1);
    TrailHolds(base, Popped(s), b, -1);
    FreeVals(s.value, l);
    hide InvBelow;
    hide VarsShape;
    hide TrailOk;
    hide RootSound;
  }

  lemma CurrentTop(base: seq<seq<int>>, s: State, b: nat, mark: seq<bool>, tmp: seq<int>, cur: set<int>)
    requires InvBelow(base, s, b, -1) && |cur| > 0 && Analysis(s.vc, s.level, s.trail, s.dLevel, mark, tmp, cur)
    ensures s.trail != [] && Lev(s.level, s.trail[|s.trail| - 1]) == s.dLevel
  {
    hide VarsShape;
    hide StoreShape;
    hide ListShape;
    hide TrailOk;
    hide AntesOk;
    hide Filed;
    hide WatchesDone;
    hide BinariesDone;
    hide StoreSound;
    hide RootSound;
    hide Analysis;
    CurrentOnTop(s, s.dLevel, mark, tmp, cur);
  }

  lemma SkipFreed(value: seq<int>, varOrder: seq<nat>, nextVar: nat, skipped: set<nat>, v: nat)
    requires SkipOk(value, varOrder, nextVar, skipped) && v < |value|
    ensures SkipOk(value[v := 0], varOrder, nextVar, skipped + {v})
  {
    FreeVals(value, v);
  }

  lemma LastOne(base: seq<seq<int>>, tmp: seq<int>, cur: set<int>, x: int)
    requires EntailsUnion(base, tmp, cur) && x in cur && |cur| == 1
    ensures cur == {x} && EntailsUnion(base, tmp, {x}) && cur - {x} == {}
  {
    assert |cur - {x}| == 0;
    assert cur == (cur - {x}) + {x};
  }

  lemma CardinalityAtLeast(a: set<int>, b: set<int>)
    requires a <= b
    ensures |a| <= |b|
  {
    if a != b {
      assert b == a + (b - a);
    }
  }

  /** The literals whose scores rise for the popped literal are assigned, unless a slot that an earlier conflict filled is read. */
  lemma ScoreLits(base: seq<seq<int>>, s: State, b: nat, slot: map<int, int>, activity: seq<Activity>,
                  phase: seq<bool>, moved: set<nat>)
    requires InvBelow(base, s, b, -1) && s.trail != [] && Lev(s.level, s.trail[|s.trail| - 1]) == s.dLevel >= 2
    requires AnteOf(s.ante, s.trail[|s.trail| - 1]) != Decided && ScoringOk(s.vc, s.imp, slot, activity, phase, moved)
    ensures VarOf(s.trail[|s.trail| - 1]) < |s.value|
    ensures var l := s.trail[|s.trail| - 1];
      forall x :: x in ScoredLits(s.store, slot, AnteOf(s.ante, l)) ==> Scorable(s.vc, s.imp, s.value[VarOf(l) := 0], VarOf(l), x)
  {
    hide VarsShape;
    hide StoreShape;
    hide ListShape;
    hide TrailOk;
    hide AntesOk;
    hide Filed;
    hide WatchesDone;
    hide BinariesDone;
    hide StoreSound;
    hide RootSound;
    hide Models;
    hide Satisfies;
    var l := s.trail[|s.trail| - 1];
    var kept, a := s.trail[..|s.trail| - 1], AnteOf(s.ante, l);
    TopReason(base, s, b);
    var value' := s.value[VarOf(l) := 0];
    BelowKept(s.vc, s.value, s.level, s.trail, s.dLevel);
    ListsHold(base, s, b, -1);
    hide InvBelow;
    match a {
      case Decided =>
        assert false;
      case Root =>
      case Binary(o) =>
        assert -o in kept;
        if o in slot && slot[o] != 0 {
          BinaryListed(s.vc, s.imp, s.watch, o, slot[o]);
        }
      case Stored(id) =>
        forall x | x in s.store[id] ensures Scorable(s.vc, s.imp, value', VarOf(l), x) {
          var k :| 0 <= k < |s.store[id]| && s.store[id][k] == x;
          if k != 0 {
            assert -s.store[id][k] in kept;
            assert LitOk(s.vc, x) && Val(value', x) != 0;
          } else {
            assert x == l;
          }
        }
    }
  }

  /** Literal x may be scored while free is the variable just popped. */
  ghost predicate Scorable(vc: nat, imp: map<int, seq<int>>, value: seq<int>, free: nat, x: int) {
    LitOk(vc, x) && (Val(value, x) != 0 || VarOf(x) == free || Listed(imp))
  }

  lemma BinaryListed(vc: nat, imp: map<int, seq<int>>, watch: map<int, seq<nat>>, l: int, o: int)
    requires ListShape(vc, imp, watch) && LitOk(vc, l) && l in imp && o in imp[l]
    ensures LitOk(vc, o) && Listed(imp)
  {
  }

  /** A literal on top of the trail that was not decided has a reason. */
  lemma TopReason(base: seq<seq<int>>, s: State, b: nat)
    requires InvBelow(base, s, b, -1) && s.trail != [] && Lev(s.level, s.trail[|s.trail| - 1]) == s.dLevel >= 2
    requires AnteOf(s.ante, s.trail[|s.trail| - 1]) != Decided
    ensures TrailOk(s.vc, s.value, s.level, s.trail, s.dLevel) && |s.value| == s.vc + 1 && LitOk(s.vc, s.trail[|s.trail| - 1])
    ensures var l := s.trail[|s.trail| - 1]; Reason(s.vc, s.store, s.imp, l, AnteOf(s.ante, l), s.trail[..|s.trail| - 1])
  {
    hide VarsShape;
    hide StoreShape;
    hide ListShape;
    hide AntesOk;
    hide Filed;
    hide WatchesDone;
    hide BinariesDone;
    hide StoreSound;
    hide RootSound;
    TrailHolds(base, s, b, -1);
    hide TrailOk;
    TopAnte(s);
  }

  lemma TopAnte(s: State)
    requires AntesOk(s.vc, s.store, s.imp, s.level, s.ante, s.trail) && s.trail != [] && Lev(s.level, s.trail[|s.trail| - 1]) >= 2
    requires AnteOf(s.ante, s.trail[|s.trail| - 1]) != Decided
    ensures var l := s.trail[|s.trail| - 1]; Reason(s.vc, s.store, s.imp, l, AnteOf(s.ante, l), s.trail[..|s.trail| - 1])
  {
    hide Reason;
    assert AnteOk(s.vc, s.store, s.imp, s.level, s.ante, s.trail, |s.trail| - 1);
  }

  /** Literals below the top of the trail outlive its removal. */
  lemma BelowKept(vc: nat, value: seq<int>, level: seq<nat>, trail: seq<int>, d: nat)
    requires TrailOk(vc, value, level, trail, d) && trail != [] && |value| == vc + 1
    ensures VarOf(trail[|trail| - 1]) < |value|
    ensures forall x :: -x in trail[..|trail| - 1] ==> LitOk(vc, x) && Val(value[VarOf(trail[|trail| - 1]) := 0], x) != 0
  {
    hide TrailOk;
    PopTrail(vc, value, level, trail, d);
    AgainstTrail(vc, value[VarOf(trail[|trail| - 1]) := 0], level, trail[..|trail| - 1], d);
  }

  lemma AgainstTrail(vc: nat, value: seq<int>, level: seq<nat>, trail: seq<int>, d: nat)
    requires TrailOk(vc, value, level, trail, d)
    ensures forall x :: -x in trail ==> LitOk(vc, x) && Val(value, x) != 0
  {
    TrailFacts(vc, value, level, trail, d);
    hide TrailOk;
    forall x | -x in trail ensures LitOk(vc, x) && Val(value, x) != 0 {
      var j :| 0 <= j < |trail| && trail[j] == -x;
    }
  }

  /** With another current-level literal still below, the popped literal has an antecedent to resolve with. */
  lemma ResolvableTop(base: seq<seq<int>>, s: State, b: nat, mark: seq<bool>, tmp: seq<int>, cur: set<int>)
    requires InvBelow(base, s, b, -1) && s.trail != [] && s.dLevel >= 2 && |cur| > 0
    requires Lev(s.level, s.trail[|s.trail| - 1]) == s.dLevel
    requires Analysis(s.vc, s.level, s.trail[..|s.trail| - 1], s.dLevel, mark, tmp, cur)
    ensures var l := s.trail[|s.trail| - 1]; var c := AnteLits(s.store, AnteOf(s.ante, l));
      && (forall m: Assignment :: Models(m, base) ==> Holds(m, l) || Satisfies(m, c))
      && (forall k :: 0 <= k < |c| ==> LitOk(s.vc, c[k]) && -c[k] in s.trail[..|s.trail| - 1])
  {
    hide Models;
    hide Satisfies;
    hide AnteLits;
    hide Analysis;
    hide VarsShape;
    hide StoreShape;
    hide ListShape;
    hide TrailOk;
    hide AntesOk;
    hide Filed;
    hide WatchesDone;
    hide BinariesDone;
    hide StoreSound;
    hide RootSound;
    var n := |s.trail| - 1;
    BelowTop(s, mark, tmp, cur);
    ImpliedNotDecided(base, s);
    ReasonAt(base, s, n);
    TrailFacts(s.vc, s.value, s.level, s.trail, s.dLevel);
    var c := AnteLits(s.store, AnteOf(s.ante, s.trail[n]));
    forall k | 0 <= k < |c| ensures LitOk(s.vc, c[k]) {
      var i :| 0 <= i < n && s.trail[..n][i] == -c[k];
      assert LitOk(s.vc, s.trail[i]);
    }
  }

  lemma BelowTop(s: State, mark: seq<bool>, tmp: seq<int>, cur: set<int>)
    requires TrailOk(s.vc, s.value, s.level, s.trail, s.dLevel) && s.trail != [] && |cur| > 0
    requires Analysis(s.vc, s.level, s.trail[..|s.trail| - 1], s.dLevel, mark, tmp, cur)
    ensures |s.trail| >= 2 && Lev(s.level, s.trail[|s.trail| - 2]) == s.dLevel
  {
    hide TrailOk;
    var below := s.trail[..|s.trail| - 1];
    var x := SomeElement(cur);
    assert -x in below && Lev(s.level, -x) == s.dLevel;
    hide Analysis;
    var j :| 0 <= j < |below| && below[j] == -x;
    LevelsMonotone(s.vc, s.value, s.level, s.trail, s.dLevel, j, |s.trail| - 2);
  }

  lemma LevelsMonotone(vc: nat, value: seq<int>, level: seq<nat>, trail: seq<int>, d: nat, i: nat, j: nat)
    requires TrailOk(vc, value, level, trail, d) && i <= j < |trail|
    ensures Lev(level, trail[i]) <= Lev(level, trail[j]) <= d
  {
  }

  lemma MarkSize(vc: nat, level: seq<nat>, trail: seq<int>, d: nat, mark: seq<bool>, tmp: seq<int>, cur: set<int>)
    requires Analysis(vc, level, trail, d, mark, tmp, cur)
    ensures |mark| == vc + 1
  {
  }

  lemma SkippedCovered(base: seq<seq<int>>, s: State, mark: seq<bool>, tmp: seq<int>, cur: set<int>, x: int)
    requires TrailOk(s.vc, s.value, s.level, s.trail, s.dLevel) && RootSound(base, s.level, s.trail)
    requires Analysis(s.vc, s.level, s.trail, s.dLevel, mark, tmp, cur) && LitOk(s.vc, x) && -x in s.trail
    requires Marked(mark, x) || Lev(s.level, x) == 1
    ensures Covered(base, s.level, x, tmp, cur) && InCurrent(s.level, s.dLevel, x, cur)
  {
    hide Entails;
    hide RootSound;
    hide TrailOk;
    TrailFacts(s.vc, s.value, s.level, s.trail, s.dLevel);
    if Marked(mark, x) {
      MarkedIn(s.vc, s.level, s.trail, s.dLevel, mark, tmp, cur, x, s.value);
    } else {
      RootFalse(base, s, x);
    }
  }

  /** A literal of the current level, above the root, is among the counted ones. */
  ghost predicate InCurrent(level: seq<nat>, d: nat, x: int, cur: set<int>) {
    Lev(level, x) == d >= 2 ==> x in cur
  }

  lemma CoveredGrows(base: seq<seq<int>>, level: seq<nat>, c: seq<int>, k: nat, tmp: seq<int>, cur: set<int>,
                     tmp': seq<int>, cur': set<int>)
    requires (forall y :: y in tmp ==> y in tmp') && cur <= cur' && k < |c| && Covered(base, level, c[k], tmp', cur')
    requires forall j :: 0 <= j < k ==> Covered(base, level, c[j], tmp, cur)
    ensures forall j :: 0 <= j < k + 1 ==> Covered(base, level, c[j], tmp', cur')
  {
    hide Entails;
  }
}
