/** A run that ends in the exception without any pause. The formula has unit and binary clauses only, so that every learned clause is a
    unit and the search can be followed round by round: select, decide, propagate, analyse the conflict, assert the learned unit. Scores,
    promotions, signs and slots are those of the solver (SolverSteps); watch lists, restarts and decay play no part. */
module StaleSlot {
  import opened Logic
  import opened Cdcl
  import opened SolverSteps
  import opened UnitPropagation
  import opened Solver

  // ------------------------------------------------------------ the search

  /** root: the literals of level 1. */
  datatype Machine = Machine(imp: map<int, seq<int>>, root: seq<int>, slot: map<int, int>, rank: Ranking, phase: seq<bool>, nextVar: nat)

  /** The literals of the level being built, and for each the false literal whose implication list set it, or 0. */
  datatype Level = Level(lits: seq<int>, from: seq<int>)

  datatype Visited = Done(level: Level) | Conflict(level: Level, list: int, lit: int)

  /** The outcome of a round: no variable is left to select; a decision without conflict; a conflict at level 1; a unit learned. */
  datatype Round = NothingLeft | Open | Refuted | Next(m: Machine)

  ghost predicate FreeVar(root: seq<int>, v: int) {
    v !in root && -v !in root
  }

  /** What loading leaves, if the unit clauses of the formula propagate nothing. */
  ghost predicate Starts(vc: nat, f: seq<seq<int>>, m: Machine) {
    && ListsAre(vc, f, m.imp) && (forall l :: LitOk(vc, l) ==> l in m.slot && m.slot[l] == 0)
    && Settled(f, m.root) && NoDuplicates(m.root) && (forall l :: l in m.root <==> [l] in f)
    && (forall v: nat :: v in m.rank.varOrder <==> 1 <= v <= vc && FreeVar(m.root, v) && Scored(f, v))
    && OrderOk(vc, m.rank.varOrder, m.rank.varPosition, set v | v in m.rank.varOrder)
    && Tallied(vc, f, m.rank.activity) && SortedByScore(m.rank.activity, m.rank.varOrder) && m.nextVar == 0
    && SignsSet(vc, m.rank.activity, m.rank.varOrder, m.phase)
  }

  predicate Sets(root: seq<int>, level: Level, l: int) {
    l in root || l in level.lits
  }

  /** The implication list of the false literal f from entry k on. */
  function Visit(root: seq<int>, level: Level, f: int, list: seq<int>, k: nat): Visited
    requires k <= |list|
    decreases |list| - k
  {
    if k == |list| then Done(level)
    else if Sets(root, level, list[k]) then Visit(root, level, f, list, k + 1)
    else if Sets(root, level, -list[k]) then Conflict(level, f, list[k])
    else Visit(root, Level(level.lits + [list[k]], level.from + [f]), f, list, k + 1)
  }

  function ListOf(imp: map<int, seq<int>>, l: int): seq<int> {
    if l in imp then imp[l] else []
  }

  /** Propagation of the literals from head on, at most bound of them; no more can be set than there are variables. */
  function Propagate(imp: map<int, seq<int>>, root: seq<int>, level: Level, head: nat, bound: nat): Visited
    decreases bound
  {
    if head >= |level.lits| || bound == 0 then Done(level)
    else
      var f := -level.lits[head];
      match Visit(root, level, f, ListOf(imp, f), 0)
      case Conflict(t, l, o) => Conflict(t, l, o)
      case Done(t) => Propagate(imp, root, t, head + 1, bound - 1)
  }

  function Lowered(r: Ranking, nextVar: nat, v: nat): nat {
    if v < |r.varPosition| && r.varPosition[v] < nextVar then r.varPosition[v] else nextVar
  }

  /** The analysis: the literals of the level are popped until the last marked one, the UIP, is found. */
  ghost function Analyse(root: seq<int>, slot: map<int, int>, level: Level, marks: set<int>, r: Ranking,
                         nextVar: nat): (Ranking, nat, int)
    requires |level.lits| == |level.from|
    decreases |level.lits|
  {
    if level.lits == [] then (r, nextVar, 0)
    else
      var n := |level.lits| - 1;
      var l, from, below := level.lits[n], level.from[n], Level(level.lits[..n], level.from[..n]);
      if -l !in marks then Analyse(root, slot, below, marks, r, Lowered(r, nextVar, VarOf(l)))
      else
        var r' := Rated(r, ScoredLits([], slot, if from == 0 then Decided else Binary(from)));
        var next := Lowered(r', nextVar, VarOf(l));
        if marks == {-l} then (r', next, l)
        else Analyse(root, slot, below, marks - {-l} + if from == 0 || -from in root then {} else {from}, r', next)
  }

  /** No variable of the order from nextVar up to i is free. */
  ghost predicate NoneFree(m: Machine, i: nat) {
    forall j :: m.nextVar <= j < i && j < |m.rank.varOrder| ==> !FreeVar(m.root, m.rank.varOrder[j])
  }

  ghost predicate SelectedAt(m: Machine, i: nat) {
    m.nextVar <= i < |m.rank.varOrder| && NoneFree(m, i) && FreeVar(m.root, m.rank.varOrder[i])
  }

  /** One round, started at level 1 with the first free variable of the order. */
  ghost predicate RoundFrom(m: Machine, r: Round) {
    if NoneFree(m, |m.rank.varOrder|) then r == NothingLeft
    else exists i: nat :: SelectedAt(m, i) && r == Decide(m.(nextVar := i + 1), m.rank.varOrder[i])
  }

  ghost function Decide(m: Machine, v: nat): Round {
    var x: int := if v < |m.rank.activity| == |m.phase| then Signed(m.rank.activity, m.phase, v) else v;
    match Propagate(m.imp, m.root, Level([x], [0]), 0, |m.phase|)
    case Done(_) => Open
    case Conflict(level, f, o) => Learn(m.(slot := m.slot[f := o], rank := Rated(m.rank, [o, f])), level, f, o)
  }

  /** The conflict on the binary clause (o or f) teaches a unit, which is asserted at level 1. */
  ghost function Learn(m: Machine, level: Level, f: int, o: int): Round {
    if |level.lits| != |level.from| then Refuted
    else
      var (r, next, u) := Analyse(m.root, m.slot, level, {f} + if -o in m.root then {} else {o}, m.rank, m.nextVar);
      match Propagate(m.imp, m.root, Level([-u], [0]), 0, |m.phase|)
      case Done(t) => Next(m.(root := m.root + t.lits, rank := r, nextVar := next))
      case Conflict(_, _, _) => Refuted
  }

  // ------------------------------------------------------------ the formula

  function Copies<T>(c: T, n: nat): seq<T> {
    seq(n, i => c)
  }

  /** Over variables 1 to 6, of which 7, a unit, makes the clauses that only raise scores true. */
  function Core(): seq<seq<int>> {
    [[7], [-3, 4], [2, -5], [-6, 4], [2, -4], [4, -1], [-4, 5], [-5, -6], [-6, -5], [-2, 5], [1, -4], [-3, 1], [2, -6], [-2, -1]]
  }

  function Formula(): seq<seq<int>> {
    Core() + Copies([1, 7], 4) + Copies([2, 7], 2) + Copies([3, 7], 8) + Copies([5, 7], 4) + Copies([6, 7], 7)
  }

  /** The entry a binary clause adds to the list of l. */
  function Partner(a: int, b: int, l: int): seq<int> {
    if a == l then [b] else if b == l then [a] else []
  }

  lemma PartnersMore(f: seq<seq<int>>, a: int, b: int, l: int)
    ensures Partners(f + [[a, b]], l) == Partners(f, l) + Partner(a, b, l)
  {
    var g := f + [[a, b]];
    assert g[..|g| - 1] == f && g[|g| - 1] == [a, b];
  }

  lemma {:induction false} PartnersJoin(f: seq<seq<int>>, g: seq<seq<int>>, l: int)
    ensures Partners(f + g, l) == Partners(f, l) + Partners(g, l)
    decreases |g|
  {
    if g == [] {
      assert f + g == f;
    } else {
      var h := f + g;
      assert h[..|h| - 1] == f + g[..|g| - 1] && h[|h| - 1] == g[|g| - 1];
      PartnersJoin(f, g[..|g| - 1], l);
    }
  }

  lemma {:induction false} CopiesPartners(v: int, u: int, n: nat, l: int)
    requires v != u
    ensures Partners(Copies([v, u], n), l) == Copies(if l == v then u else v, if l == v || l == u then n else 0)
    decreases n
  {
    if n > 0 {
      var f := Copies([v, u], n);
      assert f[..|f| - 1] == Copies([v, u], n - 1);
      CopiesPartners(v, u, n - 1, l);
    }
  }

  /** The list of l starts with p, and goes on with true literals only. */
  ghost predicate Padded(imp: map<int, seq<int>>, l: int, p: seq<int>) {
    l in imp && p <= imp[l] && forall k :: |p| <= k < |imp[l]| ==> imp[l][k] == 7
  }

  /** The clauses that only raise scores pad the lists with the true literal 7. */
  lemma FormulaPadded(l: int)
    requires l != 7
    ensures Partners(Core(), l) <= Partners(Formula(), l)
    ensures forall k :: |Partners(Core(), l)| <= k < |Partners(Formula(), l)| ==> Partners(Formula(), l)[k] == 7
  {
    var a, b, c, d, e := Copies([1, 7], 4), Copies([2, 7], 2), Copies([3, 7], 8), Copies([5, 7], 4), Copies([6, 7], 7);
    hide Core;
    Pads(Core(), 1, 4, l);
    Pads(Core() + a, 2, 2, l);
    Pads(Core() + a + b, 3, 8, l);
    Pads(Core() + a + b + c, 5, 4, l);
    Pads(Core() + a + b + c + d, 6, 7, l);
    hide Partners;
  }

  lemma Pads(f: seq<seq<int>>, v: int, n: nat, l: int)
    requires l != 7 && v != 7
    ensures var p, q := Partners(f, l), Partners(f + Copies([v, 7], n), l);
      p <= q && forall k :: |p| <= k < |q| ==> q[k] == 7
  {
    PartnersJoin(f, Copies([v, 7], n), l);
    CopiesPartners(v, 7, n, l);
    hide Partners;
  }

  function Two(a: int, b: int, c: int, d: int, l: int): seq<int> {
    Partner(a, b, l) + Partner(c, d, l)
  }

  function Three(a: int, b: int, c: int, d: int, e: int, f: int, l: int): seq<int> {
    Two(a, b, c, d, l) + Partner(e, f, l)
  }

  lemma PairList(a: int, b: int, c: int, d: int, l: int)
    ensures Partners([[a, b], [c, d]], l) == Two(a, b, c, d, l)
  {
    PartnersMore([], a, b, l);
    assert [] + [[a, b]] == [[a, b]];
    PartnersMore([[a, b]], c, d, l);
    assert [[a, b]] + [[c, d]] == [[a, b], [c, d]];
    hide Partner;
  }

  lemma TripleList(a: int, b: int, c: int, d: int, e: int, f: int, l: int)
    ensures Partners([[a, b], [c, d], [e, f]], l) == Three(a, b, c, d, e, f, l)
  {
    PairList(a, b, c, d, l);
    PartnersMore([[a, b], [c, d]], e, f, l);
    assert [[a, b], [c, d]] + [[e, f]] == [[a, b], [c, d], [e, f]];
    hide Partners;
    hide Partner;
  }

  lemma CoreList(l: int)
    ensures Partners(Core(), l) ==
      Three(-3, 4, 2, -5, -6, 4, l)
      + Three(2, -4, 4, -1, -4, 5, l)
      + Three(-5, -6, -6, -5, -2, 5, l)
      + Two(1, -4, -3, 1, l)
      + Two(2, -6, -2, -1, l)
  {
    var f0: seq<seq<int>> := [[7]];
    assert f0[..|f0| - 1] == [] && Partners(f0, l) == [];
    hide Partners;
    hide Two;
    hide Three;
    var g1 := [[-3, 4], [2, -5], [-6, 4]];
    var g2 := [[2, -4], [4, -1], [-4, 5]];
    var g3 := [[-5, -6], [-6, -5], [-2, 5]];
    var g4 := [[1, -4], [-3, 1]];
    var g5 := [[2, -6], [-2, -1]];
    assert Core() == f0 + g1 + g2 + g3 + g4 + g5;
    hide Core;
    TripleList(-3, 4, 2, -5, -6, 4, l);
    TripleList(2, -4, 4, -1, -4, 5, l);
    TripleList(-5, -6, -6, -5, -2, 5, l);
    PairList(1, -4, -3, 1, l);
    PairList(2, -6, -2, -1, l);
    PartnersJoin(f0, g1, l);
    assert [] + Three(-3, 4, 2, -5, -6, 4, l) == Three(-3, 4, 2, -5, -6, 4, l);
    PartnersJoin(f0 + g1, g2, l);
    PartnersJoin(f0 + g1 + g2, g3, l);
    PartnersJoin(f0 + g1 + g2 + g3, g4, l);
    PartnersJoin(f0 + g1 + g2 + g3 + g4, g5, l);
  }

  lemma CorePartners()
    ensures Partners(Core(), -6) == [4, -5, -5, 2] && Partners(Core(), -4) == [2, 5, 1] && Partners(Core(), -3) == [4, 1]
    ensures Partners(Core(), -1) == [4, -2] && Partners(Core(), 6) == [] && Partners(Core(), 3) == []
    ensures Partners(Core(), 1) == [-4, -3] && Partners(Core(), 4) == [-3, -6, -1]
  {
    hide Partners;
    hide Core;
    CoreList(-6);
    CoreList(-4);
    CoreList(-3);
    CoreList(-1);
    CoreList(6);
    CoreList(3);
    CoreList(1);
    CoreList(4);
  }

  /** The implication lists that the run reads. */
  ghost predicate HasLists(imp: map<int, seq<int>>) {
    && Padded(imp, -6, [4, -5, -5, 2]) && Padded(imp, -4, [2, 5, 1]) && Padded(imp, -3, [4, 1]) && Padded(imp, -1, [4, -2])
    && Padded(imp, 6, []) && Padded(imp, 3, []) && Padded(imp, 1, [-4, -3]) && Padded(imp, 4, [-3, -6, -1])
  }

  lemma FormulaLists(m: Machine)
    requires Starts(7, Formula(), m)
    ensures HasLists(m.imp)
  {
    hide Settled;
    hide OrderOk;
    hide Tallied;
    hide SortedByScore;
    hide Formula;
    hide Core;
    hide Scored;
    CorePartners();
    FormulaPadded(-6);
    FormulaPadded(-4);
    FormulaPadded(-3);
    FormulaPadded(-1);
    FormulaPadded(6);
    FormulaPadded(3);
    FormulaPadded(1);
    FormulaPadded(4);
    hide Partners;
  }

  lemma {:induction false} VisitTail(root: seq<int>, level: Level, f: int, list: seq<int>, k: nat)
    requires k <= |list| && forall j :: k <= j < |list| ==> list[j] in root
    ensures Visit(root, level, f, list, k) == Done(level)
    decreases |list| - k
  {
    if k < |list| {
      VisitTail(root, level, f, list, k + 1);
    }
  }

  lemma {:induction false} VisitPrefix(root: seq<int>, level: Level, f: int, p: seq<int>, list: seq<int>, k: nat)
    requires k <= |p| && p <= list && forall j :: |p| <= j < |list| ==> list[j] in root
    ensures Visit(root, level, f, list, k) == Visit(root, level, f, p, k)
    decreases |p| - k
  {
    if k == |p| {
      VisitTail(root, level, f, list, k);
    } else if Sets(root, level, p[k]) {
      VisitPrefix(root, level, f, p, list, k + 1);
    } else if !Sets(root, level, -p[k]) {
      VisitPrefix(root, Level(level.lits + [p[k]], level.from + [f]), f, p, list, k + 1);
    }
  }

  lemma VisitPadded(imp: map<int, seq<int>>, root: seq<int>, level: Level, l: int, p: seq<int>)
    requires Padded(imp, l, p) && 7 in root
    ensures Visit(root, level, l, ListOf(imp, l), 0) == Visit(root, level, l, p, 0)
  {
    VisitPrefix(root, level, l, p, imp[l], 0);
  }

  // ------------------------------------------------------------- the start

  function Counted(a: int, b: int, l: int): nat {
    if a == l || b == l then 1 else 0
  }

  lemma OccurrencesMore(f: seq<seq<int>>, a: int, b: int, l: int)
    ensures Occurrences(f + [[a, b]], l) == Occurrences(f, l) + Counted(a, b, l)
  {
    var g := f + [[a, b]];
    assert g[..|g| - 1] == f && g[|g| - 1] == [a, b];
  }

  lemma CoreCount(l: int)
    ensures Occurrences(Core(), l) ==
      Counted(-3, 4, l) + Counted(2, -5, l) + Counted(-6, 4, l) + Counted(2, -4, l) + Counted(4, -1, l)
      + Counted(-4, 5, l) + Counted(-5, -6, l) + Counted(-6, -5, l) + Counted(-2, 5, l) + Counted(1, -4, l)
      + Counted(-3, 1, l) + Counted(2, -6, l) + Counted(-2, -1, l)
  {
    var f0 := [[7]];
    assert f0[..|f0| - 1] == [] && Occurrences(f0, l) == 0;
    var f1 := f0 + [[-3, 4]];
    OccurrencesMore(f0, -3, 4, l);
    var f2 := f1 + [[2, -5]];
    OccurrencesMore(f1, 2, -5, l);
    var f3 := f2 + [[-6, 4]];
    OccurrencesMore(f2, -6, 4, l);
    var f4 := f3 + [[2, -4]];
    OccurrencesMore(f3, 2, -4, l);
    var f5 := f4 + [[4, -1]];
    OccurrencesMore(f4, 4, -1, l);
    var f6 := f5 + [[-4, 5]];
    OccurrencesMore(f5, -4, 5, l);
    var f7 := f6 + [[-5, -6]];
    OccurrencesMore(f6, -5, -6, l);
    var f8 := f7 + [[-6, -5]];
    OccurrencesMore(f7, -6, -5, l);
    var f9 := f8 + [[-2, 5]];
    OccurrencesMore(f8, -2, 5, l);
    var f10 := f9 + [[1, -4]];
    OccurrencesMore(f9, 1, -4, l);
    var f11 := f10 + [[-3, 1]];
    OccurrencesMore(f10, -3, 1, l);
    var f12 := f11 + [[2, -6]];
    OccurrencesMore(f11, 2, -6, l);
    var f13 := f12 + [[-2, -1]];
    OccurrencesMore(f12, -2, -1, l);
    assert Core() == f13;
    hide Occurrences;
    hide Counted;
  }

  lemma {:induction false} OccurrencesJoin(f: seq<seq<int>>, v: int, n: nat, l: int)
    requires v != 7
    ensures Occurrences(f + Copies([v, 7], n), l) == Occurrences(f, l) + if l == v || l == 7 then n else 0
    decreases n
  {
    var h := f + Copies([v, 7], n);
    if n == 0 {
      assert h == f;
    } else {
      assert h[..|h| - 1] == f + Copies([v, 7], n - 1) && h[|h| - 1] == [v, 7];
      OccurrencesJoin(f, v, n - 1, l);
    }
  }

  lemma FormulaCount(l: int)
    ensures Occurrences(Formula(), l) == Occurrences(Core(), l)
      + (if l == 1 || l == 7 then 4 else 0) + (if l == 2 || l == 7 then 2 else 0) + (if l == 3 || l == 7 then 8 else 0)
      + (if l == 5 || l == 7 then 4 else 0) + if l == 6 || l == 7 then 7 else 0
  {
    var a, b, c, d, e := Copies([1, 7], 4), Copies([2, 7], 2), Copies([3, 7], 8), Copies([5, 7], 4), Copies([6, 7], 7);
    OccurrencesJoin(Core(), 1, 4, l);
    OccurrencesJoin(Core() + a, 2, 2, l);
    OccurrencesJoin(Core() + a + b, 3, 8, l);
    OccurrencesJoin(Core() + a + b + c, 5, 4, l);
    OccurrencesJoin(Core() + a + b + c + d, 6, 7, l);
  }

  /** The scores at the start; z, the entry of no variable, is never read. */
  function Scores(z: Activity): seq<Activity> {
    [z, Activity(2, 6), Activity(2, 5), Activity(2, 8), Activity(3, 3), Activity(3, 6), Activity(4, 7), Activity(0, 25)]
  }

  lemma FormulaScores(activity: seq<Activity>)
    requires Tallied(7, Formula(), activity)
    ensures |activity| == 8 && activity == Scores(activity[0])
  {
    hide Formula;
    hide Occurrences;
    forall v: int | 1 <= v <= 7 ensures activity[v] == Scores(activity[0])[v] {
      CountAt(v);
      CountAt(-v);
    }
  }

  lemma CountAt(l: int)
    requires LitOk(7, l)
    ensures Occurrences(Formula(), l) == if l > 0 then [0, 6, 5, 8, 3, 6, 7, 25][l] else [0, 2, 2, 2, 3, 3, 4, 0][-l]
  {
    hide Formula;
    hide Core;
    hide Occurrences;
    CoreCount(l);
    FormulaCount(l);
  }

  lemma BothEmpty(a: seq<nat>, b: seq<nat>)
    requires forall v :: v in a <==> v in b
    ensures a == [] <==> b == []
  {
    if a != [] {
      assert a[0] in a;
    }
    if b != [] {
      assert b[0] in b;
    }
  }

  lemma FirstIsBest(activity: seq<Activity>, a: seq<nat>)
    requires SortedByScore(activity, a) && NoDuplicates(a) && a != []
    ensures forall v :: v in a ==> ScoreOf(activity, a[0]) >= ScoreOf(activity, v)
    ensures SortedByScore(activity, a[1..]) && NoDuplicates(a[1..]) && forall v :: v in a[1..] <==> v in a && v != a[0]
  {
    hide ScoreOf;
  }

  /** An order sorted by scores that are all different is determined by its variables. */
  lemma {:induction false} SortedUnique(activity: seq<Activity>, a: seq<nat>, b: seq<nat>)
    requires NoDuplicates(a) && NoDuplicates(b) && (forall v :: v in a <==> v in b) && SortedByScore(activity, a) && SortedByScore(activity, b)
    requires forall u, v :: u in a && v in a && ScoreOf(activity, u) == ScoreOf(activity, v) ==> u == v
    ensures a == b
    decreases |a|
  {
    hide ScoreOf;
    hide SortedByScore;
    hide NoDuplicates;
    BothEmpty(a, b);
    if a != [] && b != [] {
      FirstIsBest(activity, a);
      FirstIsBest(activity, b);
      assert a[0] in b && b[0] in a;
      assert a[0] == b[0];
      SortedUnique(activity, a[1..], b[1..]);
      assert a == [a[0]] + a[1..] && b == [b[0]] + b[1..];
    }
  }

  /** The formula's one unit clause is [7]. */
  lemma FormulaUnits(l: int)
    ensures [l] in Formula() <==> l == 7
  {
    assert Formula()[0] == [7];
    forall i | 0 <= i < |Formula()| && |Formula()[i]| == 1 ensures Formula()[i] == [7] {
    }
  }

  lemma RootIs(m: Machine)
    requires Starts(7, Formula(), m)
    ensures m.root == [7]
  {
    hide Formula;
    FormulaUnits(7);
    assert 7 in m.root;
    forall l | l in m.root ensures l == 7 {
      FormulaUnits(l);
    }
    hide Settled;
    hide Partners;
    AllSame(m.root, 7);
  }

  lemma TwoDiffer(s: seq<int>)
    requires NoDuplicates(s) && |s| > 1
    ensures exists y, z :: y in s && z in s && y != z
  {
    assert s[0] in s && s[1] in s && s[0] != s[1];
  }

  lemma AllSame(s: seq<int>, x: int)
    requires NoDuplicates(s) && x in s && forall y :: y in s ==> y == x
    ensures s == [x]
  {
    if |s| > 1 {
      TwoDiffer(s);
    }
    assert s[0] in s;
  }

  lemma CoreScored(v: nat)
    requires 1 <= v <= 6
    ensures Scored(Formula(), v)
  {
    var w: int := v;
    CountAt(w);
    CountAt(-w);
    OccursScored(Formula(), w);
    OccursScored(Formula(), -w);
  }

  function Start(z: Activity): Ranking {
    Ranking(Scores(z), [6, 3, 5, 1, 2, 4], [0, 3, 4, 1, 5, 2, 0, 0])
  }

  /** The scores are all different, so that the order does not depend on how ties are broken. */
  lemma StartRank(m: Machine)
    requires Starts(7, Formula(), m)
    ensures |m.rank.activity| == 8 && m.rank == Start(m.rank.activity[0])
  {
    hide Formula;
    hide ListsAre;
    hide Settled;
    hide Tallied;
    hide Scored;
    hide SignsSet;
    hide SortedByScore;
    hide OrderOk;
    RootIs(m);
    FormulaScores(m.rank.activity);
    forall v: nat ensures v in m.rank.varOrder <==> 1 <= v <= 6 {
      if 1 <= v <= 6 {
        CoreScored(v);
      }
    }
    OrderIs(m.rank.activity, m.rank.varOrder, m.rank.varPosition);
  }

  lemma OrderIs(activity: seq<Activity>, varOrder: seq<nat>, varPosition: seq<nat>)
    requires |activity| == 8 && activity == Scores(activity[0]) && SortedByScore(activity, varOrder)
    requires OrderOk(7, varOrder, varPosition, set v | v in varOrder) && forall v: nat :: v in varOrder <==> 1 <= v <= 6
    ensures varOrder == [6, 3, 5, 1, 2, 4] && varPosition == [0, 3, 4, 1, 5, 2, 0, 0]
  {
    assert NoDuplicates(varOrder);
    PlacesIn(varOrder, varPosition);
    hide OrderOk;
    hide ScoreOf;
    ScoresSorted(activity, [6, 3, 5, 1, 2, 4]);
    hide SortedByScore;
    hide NoDuplicates;
    SortedUnique(activity, varOrder, [6, 3, 5, 1, 2, 4]);
  }

  lemma PlacesIn(varOrder: seq<nat>, varPosition: seq<nat>)
    requires OrderOk(7, varOrder, varPosition, set v | v in varOrder) && forall v: nat :: v in varOrder <==> 1 <= v <= 6
    ensures varOrder == [6, 3, 5, 1, 2, 4] ==> varPosition == [0, 3, 4, 1, 5, 2, 0, 0]
  {
    if varOrder == [6, 3, 5, 1, 2, 4] {
      assert varOrder[0] == 6 && varOrder[1] == 3 && varOrder[2] == 5 && varOrder[3] == 1 && varOrder[4] == 2 && varOrder[5] == 4;
    }
  }

  lemma ScoresSorted(activity: seq<Activity>, b: seq<nat>)
    requires |activity| == 8 && activity == Scores(activity[0]) && b == [6, 3, 5, 1, 2, 4]
    ensures SortedByScore(activity, b) && NoDuplicates(b) && (forall v: nat :: v in b <==> 1 <= v <= 6)
    ensures forall u, v :: 1 <= u <= 6 && 1 <= v <= 6 && ScoreOf(activity, u) == ScoreOf(activity, v) ==> u == v
  {
  }

  // --------------------------------------------------------------- the run

  /** The scores and the order after the words the run scores, one after the other. */
  function Scores1(z: Activity): Ranking {
    Ranking([z, Activity(2, 6), Activity(2, 5), Activity(2, 8), Activity(4, 3), Activity(3, 7), Activity(4, 7), Activity(0, 25)],
            [6, 3, 5, 1, 2, 4], [0, 3, 4, 1, 5, 2, 0, 0])
  }

  function Scores2(z: Activity): Ranking {
    Ranking([z, Activity(3, 6), Activity(3, 5), Activity(2, 8), Activity(4, 3), Activity(3, 7), Activity(4, 7), Activity(0, 25)],
            [6, 3, 5, 1, 2, 4], [0, 3, 4, 1, 5, 2, 0, 0])
  }

  /** Variable 5, free, has overtaken 3. */
  function Scores3(z: Activity): Ranking {
    Ranking([z, Activity(3, 6), Activity(3, 5), Activity(2, 8), Activity(5, 3), Activity(3, 8), Activity(4, 7), Activity(0, 25)],
            [6, 5, 3, 1, 2, 4], [0, 3, 4, 2, 5, 1, 0, 0])
  }

  function Scores4(z: Activity): Ranking {
    Ranking([z, Activity(3, 6), Activity(3, 6), Activity(2, 8), Activity(6, 3), Activity(3, 8), Activity(4, 7), Activity(0, 25)],
            [6, 5, 3, 1, 2, 4], [0, 3, 4, 2, 5, 1, 0, 0])
  }

  /** Variable 2, free, has overtaken 1 ... */
  function Scores5(z: Activity): Ranking {
    Ranking([z, Activity(4, 6), Activity(4, 6), Activity(2, 8), Activity(6, 3), Activity(3, 8), Activity(4, 7), Activity(0, 25)],
            [6, 5, 3, 2, 1, 4], [0, 4, 3, 2, 5, 1, 0, 0])
  }

  /** ... and then 3, which 1 overtakes as well. */
  function Scores6(z: Activity): Ranking {
    Ranking([z, Activity(5, 6), Activity(5, 6), Activity(2, 8), Activity(6, 3), Activity(3, 8), Activity(4, 7), Activity(0, 25)],
            [6, 5, 2, 1, 3, 4], [0, 3, 2, 4, 5, 1, 0, 0])
  }

  ghost predicate Small(r: Ranking) {
    RankShape(r) && |r.activity| == 8 && |r.varOrder| == 6
  }

  /** A literal whose variable does not overtake the one before it only raises its score. */
  lemma Stays(r: Ranking, l: int, it: nat)
    requires Small(r) && VarOf(l) < 8 && r.varPosition[VarOf(l)] == it
    requires it == 0 || ScoreOf(r.activity, VarOf(l)) + 1 <= ScoreOf(r.activity, r.varOrder[it - 1])
    ensures RescoredLit(r, l) == r.(activity := Bumped(r.activity, l)) && Small(RescoredLit(r, l))
  {
    BumpedScores(r.activity, l);
    hide PlaceFor;
    hide ScoreOf;
    hide Bumped;
  }

  /** A literal whose variable overtakes all those from place q on takes that place. */
  lemma Overtakes(r: Ranking, l: int, it: nat, q: nat)
    requires Small(r) && VarOf(l) < 8 && r.varPosition[VarOf(l)] == it && q < it < 6
    requires r.varOrder[it] == VarOf(l) && NoDuplicates(r.varOrder)
    requires forall i :: 0 <= i < it ==> (ScoreOf(r.activity, r.varOrder[i]) <= ScoreOf(r.activity, VarOf(l)) <==> i >= q)
    ensures RescoredLit(r, l) == Swapped(r.(activity := Bumped(r.activity, l)), VarOf(l), it, q) && Small(RescoredLit(r, l))
  {
    BumpedScores(r.activity, l);
    OvertakesAt(r, l, it, q);
    hide PlaceFor;
    hide Bumped;
    hide ScoreOf;
    assert r.varOrder[it - 1] != VarOf(l);
  }

  lemma OvertakesAt(r: Ranking, l: int, it: nat, q: nat)
    requires |r.activity| == 8 && VarOf(l) < 8 && q < it < |r.varOrder| && r.varOrder[it] == VarOf(l) && NoDuplicates(r.varOrder)
    requires forall i :: 0 <= i < it ==> (ScoreOf(r.activity, r.varOrder[i]) <= ScoreOf(r.activity, VarOf(l)) <==> i >= q)
    ensures PlaceFor(Bumped(r.activity, l), r.varOrder, ScoreOf(Bumped(r.activity, l), VarOf(l)), it) == q
  {
    hide PlaceFor;
    BumpedScores(r.activity, l);
    hide Bumped;
    hide ScoreOf;
    PlaceIsFirst(Bumped(r.activity, l), r.varOrder, ScoreOf(r.activity, VarOf(l)) + 1, it, q);
  }

  lemma TwoLiterals(r: Ranking, a: int, b: int)
    requires Small(r) && VarOf(a) < 8 && VarOf(b) < 8
    ensures Rated(r, [a, b]) == RescoredLit(RescoredLit(r, a), b)
  {
    hide RescoredLit;
    var c := [a, b];
    assert c[..1] == [a] && [a][..0] == [];
    assert Rescored(r, []) == r;
    assert Rescored(r, [a]) == RescoredLit(r, a);
  }

  lemma SmallAll(z: Activity)
    ensures Small(Start(z)) && Small(Scores1(z)) && Small(Scores2(z)) && Small(Scores3(z)) && Small(Scores4(z)) && Small(Scores5(z))
  {
  }

  lemma Word1(z: Activity)
    ensures Rated(Start(z), [5, -4]) == Scores1(z)
  {
    SmallAll(z);
    hide RescoredLit;
    hide RankShape;
    var r := Start(z);
    TwoLiterals(r, 5, -4);
    hide Rated;
    Stays(r, 5, 2);
    Stays(RescoredLit(r, 5), -4, 5);
  }

  lemma Word2(z: Activity)
    ensures Rated(Scores1(z), [-2, -1]) == Scores2(z)
  {
    SmallAll(z);
    hide RescoredLit;
    hide RankShape;
    var r := Scores1(z);
    TwoLiterals(r, -2, -1);
    hide Rated;
    Stays(r, -2, 4);
    Stays(RescoredLit(r, -2), -1, 3);
  }

  lemma Word3(z: Activity)
    ensures Rated(Scores2(z), [5, -4]) == Scores3(z)
  {
    SmallAll(z);
    hide RescoredLit;
    hide RankShape;
    var r := Scores2(z);
    TwoLiterals(r, 5, -4);
    hide Rated;
    Overtakes(r, 5, 2, 1);
    Stays(RescoredLit(r, 5), -4, 5);
  }

  lemma Word4(z: Activity)
    ensures Rated(Scores3(z), [2, -4]) == Scores4(z)
  {
    SmallAll(z);
    hide RescoredLit;
    hide RankShape;
    var r := Scores3(z);
    TwoLiterals(r, 2, -4);
    hide Rated;
    Stays(r, 2, 4);
    Stays(RescoredLit(r, 2), -4, 5);
  }

  lemma Word5(z: Activity)
    ensures Rated(Scores4(z), [-2, -1]) == Scores5(z)
  {
    SmallAll(z);
    hide RescoredLit;
    hide RankShape;
    var r := Scores4(z);
    TwoLiterals(r, -2, -1);
    hide Rated;
    Overtakes(r, -2, 4, 3);
    Stays(RescoredLit(r, -2), -1, 4);
  }

  lemma Word6(z: Activity)
    ensures Rated(Scores5(z), [-2, -1]) == Scores6(z)
  {
    SmallAll(z);
    hide RescoredLit;
    hide RankShape;
    var r := Scores5(z);
    TwoLiterals(r, -2, -1);
    hide Rated;
    Overtakes(r, -2, 3, 2);
    Overtakes(RescoredLit(r, -2), -1, 4, 3);
  }

  /** A literal that is not marked is popped. */
  lemma PopPlain(root: seq<int>, slot: map<int, int>, level: Level, below: Level, l: int, from: int, marks: set<int>,
                 r: Ranking, nextVar: nat)
    requires level == Level(below.lits + [l], below.from + [from]) && |below.lits| == |below.from| && -l !in marks
    ensures Analyse(root, slot, level, marks, r, nextVar) ==
      Analyse(root, slot, below, marks, r, Lowered(r, nextVar, VarOf(l)))
  {
    assert (below.lits + [l])[..|below.lits|] == below.lits && (below.from + [from])[..|below.from|] == below.from;
  }

  /** A marked literal is replaced by the one that set it; the word its antecedent starts is scored. */
  lemma PopMarked(root: seq<int>, slot: map<int, int>, level: Level, below: Level, l: int, from: int, marks: set<int>,
                  marks': set<int>, r: Ranking, r': Ranking,
                  nextVar: nat)
    requires level == Level(below.lits + [l], below.from + [from]) && |below.lits| == |below.from| && -l in marks && marks != {-l}
    requires from != 0 && -from !in root && marks' == marks - {-l} + {from}
    requires r' == if from in slot && slot[from] != 0 then Rated(r, [slot[from], from]) else r
    ensures Analyse(root, slot, level, marks, r, nextVar) ==
      Analyse(root, slot, below, marks', r', Lowered(r', nextVar, VarOf(l)))
  {
    assert (below.lits + [l])[..|below.lits|] == below.lits && (below.from + [from])[..|below.from|] == below.from;
    NothingScored(r);
    hide Rated;
  }

  /** The decision is the last marked literal. */
  lemma PopDecision(root: seq<int>, slot: map<int, int>, l: int, r: Ranking, nextVar: nat)
    ensures Analyse(root, slot, Level([l], [0]), {-l}, r, nextVar) == (r, Lowered(r, nextVar, VarOf(l)), l)
  {
    NothingScored(r);
    hide Rated;
  }

  lemma NothingScored(r: Ranking)
    ensures Rated(r, []) == r
  {
  }

  lemma Propagate1(imp: map<int, seq<int>>)
    requires HasLists(imp)
    ensures Propagate(imp, [7], Level([6], [0]), 0, 8) == Conflict(Level([6, 4, -5, 2], [0, -6, -6, -6]), -4, 5)
    ensures Propagate(imp, [7], Level([-6], [0]), 0, 8) == Done(Level([-6], [0]))
  {
    hide Padded;
    var p, q := [4, -5, -5, 2], [2, 5, 1];
    var a, b := Level([6], [0]), Level([6, 4, -5, 2], [0, -6, -6, -6]);
    VisitPadded(imp, [7], a, -6, p);
    assert Visit([7], a, -6, p, 0) == Visit([7], Level([6, 4], [0, -6]), -6, p, 1) == Visit([7], Level([6, 4, -5], [0, -6, -6]), -6, p, 2);
    assert Visit([7], Level([6, 4, -5], [0, -6, -6]), -6, p, 2) == Visit([7], b, -6, p, 4) == Done(b);
    VisitPadded(imp, [7], b, -4, q);
    assert Visit([7], b, -4, q, 0) == Conflict(b, -4, 5);
    VisitPadded(imp, [7], Level([-6], [0]), 6, []);
    hide Visit;
    hide ListOf;
    assert Propagate(imp, [7], b, 1, 7) == Conflict(b, -4, 5);
  }

  lemma Analyse1(slot: map<int, int>, z: Activity)
    requires -6 in slot && slot[-6] == 0
    ensures Analyse([7], slot, Level([6, 4, -5, 2], [0, -6, -6, -6]), {-4, 5}, Scores1(z), 1) == (Scores1(z), 0, 6)
  {
    hide Analyse;
    hide Rated;
    var r := Scores1(z);
    var a, b, c := Level([6, 4, -5, 2], [0, -6, -6, -6]), Level([6, 4, -5], [0, -6, -6]), Level([6, 4], [0, -6]);
    PopPlain([7], slot, a, b, 2, -6, {-4, 5}, r, 1);
    PopMarked([7], slot, b, c, -5, -6, {-4, 5}, {-4, -6}, r, r, 1);
    PopMarked([7], slot, c, Level([6], [0]), 4, -6, {-4, -6}, {-6}, r, r, 1);
    PopDecision([7], slot, 6, r, 1);
  }

  lemma Visit2a(root: seq<int>)
    requires root == [7, -6]
    ensures Visit(root, Level([3], [0]), -3, [4, 1], 0) == Done(Level([3, 4, 1], [0, -3, -3]))
  {
    var a, b, p := Level([3], [0]), Level([3, 4, 1], [0, -3, -3]), [4, 1];
    assert Visit(root, a, -3, p, 0) == Visit(root, Level([3, 4], [0, -3]), -3, p, 1) == Visit(root, b, -3, p, 2);
  }

  lemma Visit2b(root: seq<int>)
    requires root == [7, -6]
    ensures Visit(root, Level([3, 4, 1], [0, -3, -3]), -4, [2, 5, 1], 0) == Done(Level([3, 4, 1, 2, 5], [0, -3, -3, -4, -4]))
  {
    var b, c, q := Level([3, 4, 1], [0, -3, -3]), Level([3, 4, 1, 2, 5], [0, -3, -3, -4, -4]), [2, 5, 1];
    assert Visit(root, b, -4, q, 0) == Visit(root, Level([3, 4, 1, 2], [0, -3, -3, -4]), -4, q, 1);
    assert Visit(root, Level([3, 4, 1, 2], [0, -3, -3, -4]), -4, q, 1) == Visit(root, c, -4, q, 2);
  }

  lemma Visit2c(root: seq<int>)
    requires root == [7, -6]
    ensures Visit(root, Level([3, 4, 1, 2, 5], [0, -3, -3, -4, -4]), -1, [4, -2], 0) == Conflict(Level([3, 4, 1, 2, 5], [0, -3, -3, -4, -4]), -1, -2)
  {
    var c, t := Level([3, 4, 1, 2, 5], [0, -3, -3, -4, -4]), [4, -2];
    assert Visit(root, c, -1, t, 0) == Visit(root, c, -1, t, 1);
  }

  lemma Propagate2(imp: map<int, seq<int>>, root: seq<int>)
    requires HasLists(imp) && root == [7, -6]
    ensures Propagate(imp, root, Level([3], [0]), 0, 8) == Conflict(Level([3, 4, 1, 2, 5], [0, -3, -3, -4, -4]), -1, -2)
    ensures Propagate(imp, root, Level([-3], [0]), 0, 8) == Done(Level([-3], [0]))
  {
    hide Padded;
    var a, b, c := Level([3], [0]), Level([3, 4, 1], [0, -3, -3]), Level([3, 4, 1, 2, 5], [0, -3, -3, -4, -4]);
    Visit2a(root);
    Visit2b(root);
    Visit2c(root);
    VisitPadded(imp, root, a, -3, [4, 1]);
    VisitPadded(imp, root, b, -4, [2, 5, 1]);
    VisitPadded(imp, root, c, -1, [4, -2]);
    VisitPadded(imp, root, Level([-3], [0]), 3, []);
    assert Visit(root, Level([-3], [0]), 3, [], 0) == Done(Level([-3], [0]));
    hide Visit;
    hide ListOf;
    assert Propagate(imp, root, b, 1, 7) == Propagate(imp, root, c, 2, 6) == Conflict(c, -1, -2);
  }

  /** The slot filled by the first conflict is read, and variable 5, which is free by then, passes the start of the scan. */
  lemma Analyse2(slot: map<int, int>, z: Activity)
    requires -3 in slot && slot[-3] == 0 && -4 in slot && slot[-4] == 5
    ensures Analyse([7, -6], slot, Level([3, 4, 1, 2, 5], [0, -3, -3, -4, -4]), {-1, -2}, Scores2(z), 2) == (Scores3(z), 2, 3)
  {
    hide Analyse;
    hide Rated;
    var root, r, r' := [7, -6], Scores2(z), Scores3(z);
    var a, b := Level([3, 4, 1, 2, 5], [0, -3, -3, -4, -4]), Level([3, 4, 1, 2], [0, -3, -3, -4]);
    var c, d := Level([3, 4, 1], [0, -3, -3]), Level([3, 4], [0, -3]);
    Word3(z);
    PopPlain(root, slot, a, b, 5, -4, {-1, -2}, r, 2);
    PopMarked(root, slot, b, c, 2, -4, {-1, -2}, {-1, -4}, r, r', 2);
    PopMarked(root, slot, c, d, 1, -3, {-1, -4}, {-4, -3}, r', r', 2);
    PopMarked(root, slot, d, Level([3], [0]), 4, -3, {-4, -3}, {-3}, r', r', 2);
    PopDecision(root, slot, 3, r', 2);
  }

  lemma Propagate3(imp: map<int, seq<int>>, root: seq<int>)
    requires HasLists(imp) && root == [7, -6, -3]
    ensures Propagate(imp, root, Level([1], [0]), 0, 8) == Conflict(Level([1, 4, -2], [0, -1, -1]), -4, 2)
    ensures Propagate(imp, root, Level([-1], [0]), 0, 8) == Done(Level([-1, -4], [0, 1]))
  {
    hide Padded;
    var p, q, t, u := [4, -2], [2, 5, 1], [-4, -3], [-3, -6, -1];
    var a, b, c, d := Level([1], [0]), Level([1, 4, -2], [0, -1, -1]), Level([-1], [0]), Level([-1, -4], [0, 1]);
    VisitPadded(imp, root, a, -1, p);
    assert Visit(root, a, -1, p, 0) == Visit(root, Level([1, 4], [0, -1]), -1, p, 1) == Visit(root, b, -1, p, 2) == Done(b);
    VisitPadded(imp, root, b, -4, q);
    assert Visit(root, b, -4, q, 0) == Conflict(b, -4, 2);
    VisitPadded(imp, root, c, 1, t);
    assert Visit(root, c, 1, t, 0) == Visit(root, d, 1, t, 1) == Visit(root, d, 1, t, 2) == Done(d);
    VisitPadded(imp, root, d, 4, u);
    assert Visit(root, d, 4, u, 0) == Visit(root, d, 4, u, 1) == Visit(root, d, 4, u, 2) == Visit(root, d, 4, u, 3) == Done(d);
    hide Visit;
    hide ListOf;
    assert Propagate(imp, root, b, 1, 7) == Conflict(b, -4, 2);
    assert Propagate(imp, root, d, 1, 7) == Propagate(imp, root, d, 2, 6) == Done(d);
  }

  /** The slot filled by the second conflict is read twice, and variable 2, free as well, passes the start of the scan. */
  lemma Analyse3(slot: map<int, int>, z: Activity)
    requires -1 in slot && slot[-1] == -2
    ensures Analyse([7, -6, -3], slot, Level([1, 4, -2], [0, -1, -1]), {-4, 2}, Scores4(z), 4) == (Scores6(z), 3, 1)
  {
    hide Analyse;
    hide Rated;
    var root, r, r', r'' := [7, -6, -3], Scores4(z), Scores5(z), Scores6(z);
    var a, b := Level([1, 4, -2], [0, -1, -1]), Level([1, 4], [0, -1]);
    Word5(z);
    Word6(z);
    PopMarked(root, slot, a, b, -2, -1, {-4, 2}, {-4, -1}, r, r', 4);
    PopMarked(root, slot, b, Level([1], [0]), 4, -1, {-4, -1}, {-1}, r', r'', 3);
    PopDecision(root, slot, 1, r'', 3);
  }

  // ------------------------------------------------------------ the rounds

  lemma Round1(m: Machine, z: Activity)
    requires HasLists(m.imp) && m.root == [7] && m.rank == Start(z) && m.nextVar == 0 && |m.phase| == 8 && m.phase[6]
    requires -6 in m.slot && m.slot[-6] == 0
    ensures RoundFrom(m, Next(m.(root := [7, -6], slot := m.slot[-4 := 5], rank := Scores1(z))))
  {
    hide HasLists;
    hide Propagate;
    hide Analyse;
    hide Rated;
    Propagate1(m.imp);
    Word1(z);
    Analyse1(m.slot[-4 := 5], z);
    assert {-4} + {5} == {-4, 5};
    assert SelectedAt(m, 0);
    assert m.root + [-6] == [7, -6];
    assert Signed(m.rank.activity, m.phase, 6) == 6;
    assert Decide(m.(nextVar := 1), 6) == Next(m.(root := [7, -6], slot := m.slot[-4 := 5], rank := Scores1(z)));
  }

  lemma Round2(m: Machine, z: Activity)
    requires HasLists(m.imp) && m.root == [7, -6] && m.rank == Scores1(z) && m.nextVar == 0 && |m.phase| == 8 && m.phase[3]
    requires -3 in m.slot && m.slot[-3] == 0 && -4 in m.slot && m.slot[-4] == 5
    ensures RoundFrom(m, Next(m.(root := [7, -6, -3], slot := m.slot[-1 := -2], rank := Scores3(z), nextVar := 2)))
  {
    hide HasLists;
    hide Propagate;
    hide Analyse;
    hide Rated;
    Propagate2(m.imp, m.root);
    Word2(z);
    Analyse2(m.slot[-1 := -2], z);
    assert {-1} + {-2} == {-1, -2};
    assert SelectedAt(m, 1);
    assert m.root + [-3] == [7, -6, -3];
    assert Signed(m.rank.activity, m.phase, 3) == 3;
    assert Decide(m.(nextVar := 2), 3) == Next(m.(root := [7, -6, -3], slot := m.slot[-1 := -2], rank := Scores3(z), nextVar := 2));
  }

  lemma Round3(m: Machine, z: Activity)
    requires HasLists(m.imp) && m.root == [7, -6, -3] && m.rank == Scores3(z) && m.nextVar == 2 && |m.phase| == 8 && m.phase[1]
    requires -1 in m.slot && m.slot[-1] == -2
    ensures RoundFrom(m, Next(m.(root := [7, -6, -3, -1, -4], slot := m.slot[-4 := 2], rank := Scores6(z), nextVar := 3)))
  {
    hide HasLists;
    hide Propagate;
    hide Analyse;
    hide Rated;
    Propagate3(m.imp, m.root);
    Word4(z);
    Analyse3(m.slot[-4 := 2], z);
    assert {-4} + {2} == {-4, 2};
    assert SelectedAt(m, 3);
    assert m.root + [-1, -4] == [7, -6, -3, -1, -4];
    assert Signed(m.rank.activity, m.phase, 1) == 1;
    assert Decide(m.(nextVar := 4), 1) == Next(m.(root := [7, -6, -3, -1, -4], slot := m.slot[-4 := 2], rank := Scores6(z), nextVar := 3));
  }

  /** A literal of every clause is true at level 1, which is all there is when nothing is left to select. */
  ghost predicate Checked(f: seq<seq<int>>, root: seq<int>) {
    forall c :: c in f ==> exists l :: l in c && l in root
  }

  /** The exception without a pause: however the solver starts on this satisfiable formula, it learns -6, -3 and -1, and then finds
      nothing left to select, while the clause (2 or -5) has no true literal. */
  lemma ThrowsUnpaused(m: Machine) returns (m1: Machine, m2: Machine, m3: Machine)
    requires Starts(7, Formula(), m)
    ensures RoundFrom(m, Next(m1)) && RoundFrom(m1, Next(m2)) && RoundFrom(m2, Next(m3)) && RoundFrom(m3, NothingLeft)
    ensures Satisfiable(Formula()) && !Checked(Formula(), m3.root)
  {
    hide Formula;
    hide Starts;
    hide HasLists;
    StartRank(m);
    RootIs(m);
    FormulaLists(m);
    StartSigns(m);
    FormulaSatisfiable();
    var z := m.rank.activity[0];
    m1 := m.(root := [7, -6], slot := m.slot[-4 := 5], rank := Scores1(z));
    m2 := m1.(root := [7, -6, -3], slot := m1.slot[-1 := -2], rank := Scores3(z), nextVar := 2);
    m3 := m2.(root := [7, -6, -3, -1, -4], slot := m2.slot[-4 := 2], rank := Scores6(z), nextVar := 3);
    Round1(m, z);
    Round2(m1, z);
    Round3(m2, z);
    NothingSelected(m3, z);
    OpenClause(m3.root);
    hide RoundFrom;
  }

  lemma OpenClause(root: seq<int>)
    requires root == [7, -6, -3, -1, -4]
    ensures !Checked(Formula(), root)
  {
    var c := [2, -5];
    assert Formula()[2] == c;
    hide Formula;
    assert c in Formula() && forall l :: l in c ==> l !in root;
  }

  lemma NothingSelected(m: Machine, z: Activity)
    requires m.root == [7, -6, -3, -1, -4] && m.rank == Scores6(z) && m.nextVar == 3
    ensures RoundFrom(m, NothingLeft)
  {
  }

  lemma StartSigns(m: Machine)
    requires Starts(7, Formula(), m)
    ensures |m.phase| == 8 && m.phase[6] && m.phase[3] && m.phase[1] && m.nextVar == 0
    ensures forall l :: LitOk(7, l) ==> l in m.slot && m.slot[l] == 0
  {
    hide Formula;
    hide Starts;
    hide Scores;
    StartRank(m);
    StartPhases(m);
    StartActivity(m.rank.activity[0]);
    var r := m.rank;
    assert r.varOrder[0] == 6 && r.varOrder[1] == 3 && r.varOrder[3] == 1;
    assert 6 in r.varOrder && 3 in r.varOrder && 1 in r.varOrder;
  }

  lemma StartActivity(z: Activity)
    ensures var a := Scores(z); a[6] == Activity(4, 7) && a[3] == Activity(2, 8) && a[1] == Activity(2, 6)
  {
  }

  lemma StartPhases(m: Machine)
    requires Starts(7, Formula(), m)
    ensures |m.phase| == 8 && m.nextVar == 0 && (forall l :: LitOk(7, l) ==> l in m.slot && m.slot[l] == 0)
    ensures |m.rank.activity| == 8 && forall v :: v in m.rank.varOrder ==> v < 8 && (m.phase[v] <==> m.rank.activity[v].pos > m.rank.activity[v].neg)
  {
    hide Formula;
    hide Settled;
    hide Partners;
    hide SortedByScore;
    hide Occurrences;
    hide Scored;
  }

  lemma FormulaSatisfiable()
    ensures Satisfiable(Formula())
  {
    var a: Assignment := iset{2, 5, 7};
    forall i | 0 <= i < |Formula()| ensures Satisfies(a, Formula()[i]) {
      var c := Formula()[i];
      var l := if 7 in c then 7 else if 2 in c then 2 else if 5 in c then 5 else if -6 in c then -6 else if -4 in c then -4
        else if -3 in c then -3 else -1;
      assert l in c && Holds(a, l);
    }
    assert Models(a, Formula());
  }

  // ------------------------------------------------------- loading it

  /** Apart from [7] the clauses have two literals, neither of which is -7. */
  lemma FormulaPairs(c: seq<int>)
    requires c in Formula()
    ensures c == [7] || (|c| == 2 && c[0] != c[1] && c[0] != -7 && c[1] != -7 && LitOk(7, c[0]) && LitOk(7, c[1]))
    ensures forall k :: 0 <= k < |c| ==> c[k] in c
  {
    var i :| 0 <= i < |Formula()| && Formula()[i] == c;
  }

  lemma FormulaShape()
    ensures forall c :: c in Formula() ==> ClauseShape(7, c)
  {
    forall c | c in Formula() ensures ClauseShape(7, c) {
      FormulaPairs(c);
    }
  }

  /** Unit propagation sets 7 and nothing else. */
  lemma FormulaForced()
    ensures !UnitRefuted(Formula()) && forall l :: Forced(Formula(), l) <==> l == 7
  {
    FormulaUnits(7);
    hide Formula;
    var f, X: iset<int> := Formula(), iset{7};
    forall c, l | c in f && l in c && OthersRefuted(X, c, l) ensures l in X {
      FormulaPairs(c);
    }
    forall c | c in f ensures !RefutesClause(X, c) {
      FormulaPairs(c);
      assert c[0] in c;
    }
    assert Closed(f, X) && !Refutes(f, X);
    forall Y: iset<int> | Closed(f, Y) ensures 7 in Y {
      assert [7] in f && 7 in [7] && OthersRefuted(Y, [7], 7);
    }
  }

  /** The solver loads the formula into a state from which the run starts. */
  method LoadFormula() returns (solver: SatSolver)
    ensures fresh(solver) && solver.Valid() && solver.base == Formula()
    ensures Starts(7, Formula(), Machine(solver.imp, solver.trail, solver.slot, solver.Rank(), solver.phase, solver.nextVar))
  {
    hide Formula;
    hide ClauseShape;
    hide UnitRefuted;
    hide Forced;
    hide Listed;
    hide Inv;
    hide AllOrdered;
    hide SortedByScore;
    hide Tallied;
    hide SignsSet;
    hide ListsAre;
    hide OrderOk;
    hide SkipOk;
    hide ScoringOk;
    hide AllClear;
    hide SatSolver.Valid;
    FormulaShape();
    FormulaForced();
    solver := new SatSolver(7, Formula());
    StartTrail(solver.base, solver.St(), solver.varOrder);
    solver.OrdersOpen();
    StartOrder(solver.varOrder, solver.varPosition, solver.ordered);
    forall l ensures l in solver.trail <==> [l] in Formula() {
      FormulaUnits(l);
    }
  }

  lemma StartTrail(base: seq<seq<int>>, s: State, varOrder: seq<nat>)
    requires Inv(base, s, {}, -1, 0, []) && s.vc == 7 && AllOrdered(7, Formula(), s.value, varOrder)
    ensures NoDuplicates(s.trail)
    ensures forall v: nat :: v in varOrder <==> 1 <= v <= 7 && FreeVar(s.trail, v) && Scored(Formula(), v)
  {
    hide Formula;
    hide Scored;
    BusyFacts(base, s, {}, 0, []);
    hide Inv;
    forall v: int | 1 <= v <= 7 ensures s.value[v] == 0 <==> FreeVar(s.trail, v) {
      FreeIff(s, v);
    }
  }

  lemma FreeIff(s: State, v: int)
    requires TrailOk(s.vc, s.value, s.level, s.trail, s.dLevel) && |s.value| == s.vc + 1 && 1 <= v <= s.vc && forall x :: -1 <= Val(s.value, x) <= 1
    ensures s.value[v] == 0 <==> FreeVar(s.trail, v)
  {
    assert LitOk(s.vc, v) && LitOk(s.vc, -v) && -1 <= Val(s.value, v) <= 1;
    if v in s.trail {
      var i :| 0 <= i < |s.trail| && s.trail[i] == v;
      assert Val(s.value, v) == 1;
    }
    if -v in s.trail {
      var i :| 0 <= i < |s.trail| && s.trail[i] == -v;
      assert Val(s.value, -v) == 1;
    }
  }

  lemma StartOrder(varOrder: seq<nat>, varPosition: seq<nat>, ordered: set<nat>)
    requires OrderOk(7, varOrder, varPosition, ordered)
    ensures OrderOk(7, varOrder, varPosition, set v | v in varOrder)
  {
  }
}
