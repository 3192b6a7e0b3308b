/** The scan of the variable order over the calls of run: what one call may do to it, when a search goes on without propagating
    anything, and which variables a search loses. */
module Scanning {
  import opened Logic
  import opened Cdcl
  import opened SolverSteps
  import opened UnitPropagation

  /** The state of a search, the order, and where the next scans of the order and of the learned clauses start. */
  datatype Scan = Scan(state: State, varOrder: seq<nat>, nextVar: nat, nextClause: int)

  // ---------------------------------------------------------- one call

  /** The first entry of the order from i on whose variable is free. */
  ghost function NextFree(value: seq<int>, varOrder: seq<nat>, i: nat): (k: nat)
    requires i <= |varOrder|
    ensures i <= k <= |varOrder|
    decreases |varOrder| - i
  {
    if i == |varOrder| || Val(value, varOrder[i]) == 0 then i else NextFree(value, varOrder, i + 1)
  }

  lemma {:induction false} NextFreeIs(value: seq<int>, varOrder: seq<nat>, i: nat, k: nat)
    requires i <= k <= |varOrder| && forall j :: i <= j < k ==> Val(value, varOrder[j]) != 0
    requires k < |varOrder| ==> Val(value, varOrder[k]) == 0
    ensures NextFree(value, varOrder, i) == k
    decreases k - i
  {
    if i < k {
      NextFreeIs(value, varOrder, i + 1, k);
    }
  }

  /** One selection by order: x is 0 if no free variable is left, and otherwise the scan moves past the one taken. */
  ghost predicate ScanStep(a: Scan, b: Scan, x: int) {
    a.nextVar <= |a.varOrder| && var i := NextFree(a.state.value, a.varOrder, a.nextVar);
    if i < |a.varOrder| then x != 0 && b == a.(nextVar := i + 1) && VarOf(x) == a.varOrder[i] else x == 0 && b == a
  }

  ghost predicate Freed(value: seq<int>, value': seq<int>) {
    forall x :: Val(value', x) == Val(value, x) || Val(value', x) == 0
  }

  /** When the scan finds no free variable any more the assignment is checked as it is. With a reporting time of 1 no decision is
      ever made: a call moves the scan past one free variable and pauses. */
  ghost predicate PausedOnly(r: RunResult, reportingTime: nat, a: Scan, b: Scan) {
    a.nextVar <= |a.varOrder| && var i := NextFree(a.state.value, a.varOrder, a.nextVar);
    if i < |a.varOrder| then reportingTime == 1 ==> r == Paused && b == a.(nextVar := i + 1)
    else (r == Sat && Freed(a.state.value, b.state.value)) || (r == Inconsistent && b.state.value == a.state.value)
  }

  /** A call that makes a decision is none of these. */
  ghost predicate Deciding(reportingTime: nat, a: Scan) {
    reportingTime != 1 && a.nextVar <= |a.varOrder| && NextFree(a.state.value, a.varOrder, a.nextVar) < |a.varOrder|
  }

  // ------------------------------------------------- without propagation

  /** n selections by the order, with n - 1 decisions between them, will neither propagate anything nor meet a conflict. */
  ghost predicate Quiet(a: Scan, n: nat) {
    && Roomy(a.state.store, a.state.imp, |a.state.trail| + n + 1) && a.nextClause == -1 && a.nextVar + n <= |a.varOrder|
    && forall i :: a.nextVar <= i < |a.varOrder| ==> Val(a.state.value, a.varOrder[i]) == 0
  }

  /** k of the selections have been made, each with its decision. */
  ghost predicate QuietRun(a: Scan, b: Scan, n: nat, k: nat) {
    && k <= n && b.varOrder == a.varOrder && |b.state.store| == |a.state.store| && |b.state.trail| == |a.state.trail| + k
    && b.nextVar == a.nextVar + k && Quiet(b, n - k)
  }

  /** A pause after n selections: the last one is dropped. */
  ghost predicate QuietPause(a: Scan, b: Scan, n: nat) {
    && b.varOrder == a.varOrder && b.nextClause == -1 && |b.state.store| == |a.state.store|
    && |b.state.trail| + 1 == |a.state.trail| + n && b.nextVar == a.nextVar + n <= |b.varOrder|
    && forall i :: b.nextVar <= i < |b.varOrder| ==> Val(b.state.value, b.varOrder[i]) == 0
  }

  /** Literal x has just been selected, and n selections more will be quiet once it is decided. */
  ghost predicate QuietChoice(b: Scan, n: nat, x: int) {
    1 <= b.nextVar <= |b.varOrder| && VarOf(x) == b.varOrder[b.nextVar - 1] && Quiet(b.(nextVar := b.nextVar - 1), n + 1)
  }

  /** A decision added one literal to the stack and nothing else. */
  ghost predicate QuietDecision(b: Scan, c: Scan, n: nat) {
    c.varOrder == b.varOrder && c.nextVar == b.nextVar && |c.state.store| == |b.state.store| && |c.state.trail| == |b.state.trail| + 1 && Quiet(c, n)
  }

  lemma QuietRoom(b: Scan, n: nat, x: int)
    requires QuietChoice(b, n, x) && n >= 1
    ensures Roomy(b.state.store, b.state.imp, |b.state.trail| + 3) && b.nextClause == -1
  {
  }

  /** A decision among clauses with room propagates nothing. */
  lemma QuietRoomy(base: seq<seq<int>>, s: State, t: State, l: int, ok: bool)
    requires Roomy(s.store, s.imp, |s.trail| + 3) && UpStep(s.store, s.imp, s.trail + [l], t.trail, ok)
    requires ok ==> Inv(base, t, {}, -1, 0, []) && s.trail + [l] <= t.trail
    ensures ok && t.trail == s.trail + [l]
  {
    RoomyQuiet(s.store, s.imp, s.trail + [l], t.trail, ok);
    BusyFacts(base, t, {}, 0, []);
    hide Inv;
    PrefixOnly(s.trail + [l], t.trail);
  }

  lemma PrefixOnly(a: seq<int>, b: seq<int>)
    requires a <= b && NoDuplicates(b) && forall i :: 0 <= i < |b| ==> b[i] in a
    ensures b == a
  {
    if |b| > |a| {
      PrefixLonger(a, b);
    }
  }

  lemma PrefixLonger(a: seq<int>, b: seq<int>)
    requires a <= b && NoDuplicates(b) && |b| > |a|
    ensures exists i :: 0 <= i < |b| && b[i] !in a
  {
    forall j | 0 <= j < |a| ensures a[j] != b[|a|] {
      assert a[j] == b[j];
    }
    assert b[|a|] !in a;
  }

  lemma QuietDecided(base: seq<seq<int>>, b: Scan, c: Scan, varPosition: seq<nat>, ordered: set<nat>, n: nat, x: int)
    requires QuietChoice(b, n, x) && x != 0 && Inv(base, b.state, {}, -1, 0, []) && Inv(base, c.state, {}, -1, 0, [])
    requires c.state.trail == b.state.trail + [x] && c.state.vc == b.state.vc && c.state.imp == b.state.imp
    requires c.varOrder == b.varOrder && c.nextVar == b.nextVar && c.nextClause == b.nextClause
    requires Evolves(b.state.cc, b.state.store, c.state.store) && |b.state.store| == |c.state.store|
    requires OrderOk(b.state.vc, b.varOrder, varPosition, ordered)
    ensures QuietDecision(b, c, n)
  {
    hide OrderOk;
    var s, t := b.state, c.state;
    BusyFacts(base, s, {}, 0, []);
    BusyFacts(base, t, {}, 0, []);
    hide Inv;
    TrailFacts(s.vc, s.value, s.level, s.trail, s.dLevel);
    forall id | 0 <= id < |t.store| ensures NoDuplicates(t.store[id]) {
      assert ClauseShape(t.vc, t.store[id]);
    }
    OthersFree(s, t, b.varOrder, varPosition, ordered, b.nextVar - 1, x);
    hide TrailOk;
  }

  /** The variables of the order behind the one just set are still free. */
  lemma OthersFree(s: State, t: State, varOrder: seq<nat>, varPosition: seq<nat>, ordered: set<nat>, from: nat, x: int)
    requires OrderOk(t.vc, varOrder, varPosition, ordered) && TrailOk(t.vc, t.value, t.level, t.trail, t.dLevel) && t.trail == s.trail + [x]
    requires from < |varOrder| && VarOf(x) == varOrder[from] && forall i :: from <= i < |varOrder| ==> Val(s.value, varOrder[i]) == 0
    requires (forall i :: 0 <= i < |s.trail| ==> Val(s.value, s.trail[i]) == 1) && forall y :: -1 <= Val(t.value, y) <= 1
    ensures forall i :: from < i < |varOrder| ==> Val(t.value, varOrder[i]) == 0
  {
    forall y | y in s.trail ensures Val(s.value, y) == 1 {
    }
    forall i | from < i < |varOrder| ensures Val(t.value, varOrder[i]) == 0 {
      var v: int := varOrder[i];
      assert varPosition[varOrder[i]] == i && varPosition[varOrder[from]] == from;
      assert Val(s.value, v) == 0 && Val(s.value, -v) == 0 && v != x && -v != x;
      assert v !in t.trail && -v !in t.trail;
      assert LitOk(t.vc, v) && LitOk(t.vc, -v) && Val(t.value, -v) == -Val(t.value, v);
    }
  }

  // ---------------------------------------------------- the loop of a call

  /** After k decisions of a call that started at a. */
  ghost predicate Progress(n: nat, a: Scan, b: Scan, k: nat) {
    (k == 0 ==> b == a) && (a.nextClause == -1 && k > 0 ==> Deciding(n, a)) && (Quiet(a, n) ==> QuietRun(a, b, n, k))
  }

  /** What is known of a call with reporting time n. */
  ghost predicate Outcome(r: RunResult, n: nat, a: Scan, b: Scan) {
    (a.nextClause == -1 ==> PausedOnly(r, n, a, b)) && (Quiet(a, n) ==> r == Paused && QuietPause(a, b, n))
  }

  lemma ProgressStarts(n: nat, a: Scan)
    ensures Progress(n, a, a, 0)
  {
  }

  lemma QuietSelects(n: nat, a: Scan, b: Scan, c: Scan, k: nat, x: int)
    requires QuietRun(a, b, n, k) && k < n && ScanStep(b, c, x)
    ensures x != 0 && QuietChoice(c, n - k - 1, x) && c == b.(nextVar := b.nextVar + 1)
  {
    assert c.(nextVar := c.nextVar - 1) == b;
  }

  /** The selection that makes the call pause. */
  lemma Pauses(n: nat, a: Scan, b: Scan, c: Scan, k: nat, x: int)
    requires Progress(n, a, b, k) && k + 1 == n && x != 0 && (b.nextClause == -1 ==> ScanStep(b, c, x))
    ensures Outcome(Paused, n, a, c)
  {
    if Quiet(a, n) {
      QuietSelects(n, a, b, c, k, x);
    }
  }

  /** A selection that is decided. */
  lemma GoesOn(n: nat, a: Scan, b: Scan, c: Scan, d: Scan, k: nat, x: int, unsat: bool)
    requires Progress(n, a, b, k) && k + 1 < n && x != 0 && (b.nextClause == -1 ==> ScanStep(b, c, x))
    requires QuietChoice(c, n - k - 1, x) ==> !unsat && QuietDecision(c, d, n - k - 1)
    ensures if unsat then Outcome(Unsat, n, a, d) else Progress(n, a, d, k + 1)
  {
    if Quiet(a, n) {
      QuietSelects(n, a, b, c, k, x);
    }
  }

  /** The end of the call: nothing is left to select. */
  lemma Checks(r: RunResult, n: nat, a: Scan, b: Scan, c: Scan, d: Scan, k: nat)
    requires Progress(n, a, b, k) && k < n && (b.nextClause == -1 ==> ScanStep(b, c, 0))
    requires (r == Sat && Freed(c.state.value, d.state.value)) || (r == Inconsistent && d.state.value == c.state.value)
    ensures Outcome(r, n, a, d)
  {
    if Quiet(a, n) {
      QuietSelects(n, a, b, c, k, 0);
    }
  }

  // ------------------------------------------------------ what a search loses

  /** Literal l of clause id is one the scan of the order cannot find: it was dropped by a pause, or a stale slot promoted its variable
      past the scan; or a blocking clause has it, and the order never did. */
  ghost predicate Lost(cc: nat, ordered: set<nat>, lost: set<nat>, id: nat, l: int) {
    VarOf(l) in lost || (id >= cc && VarOf(l) !in ordered)
  }

  /** Some clause is unsatisfied and has two free literals, both of them lost. */
  ghost predicate LostPair(cc: nat, store: seq<seq<int>>, indices: seq<nat>, value: seq<int>, ordered: set<nat>, lost: set<nat>) {
    exists id: nat, i: nat, j: nat :: OpenPairAt(cc, store, indices, value, id, i, j)
      && Lost(cc, ordered, lost, id, store[id][i]) && Lost(cc, ordered, lost, id, store[id][j])
  }

  lemma PairLost(formula: seq<seq<int>>, vc: nat, cc: nat, store: seq<seq<int>>, indices: seq<nat>, value: seq<int>,
                 level: seq<nat>, trail: seq<int>,
                 varOrder: seq<nat>, varPosition: seq<nat>, ordered: set<nat>, loaded: set<int>, nextVar: nat, lost: set<nat>)
    requires exists id: nat, i: nat, j: nat :: OpenPairAt(cc, store, indices, value, id, i, j)
    requires OrderOk(vc, varOrder, varPosition, ordered) && SkipOk(value, varOrder, nextVar, lost)
    requires forall i :: nextVar <= i < |varOrder| ==> Val(value, varOrder[i]) != 0
    requires Origin(formula, cc, store, ordered, loaded) && LoadedHeld(loaded, level, trail)
    requires forall i :: 0 <= i < |trail| ==> Val(value, trail[i]) == 1
    ensures LostPair(cc, store, indices, value, ordered, lost)
  {
    var id: nat, i: nat, j: nat :| OpenPairAt(cc, store, indices, value, id, i, j);
    FreeLost(formula, vc, cc, store, value, level, trail, varOrder, varPosition, ordered, loaded, nextVar, lost, id, i);
    FreeLost(formula, vc, cc, store, value, level, trail, varOrder, varPosition, ordered, loaded, nextVar, lost, id, j);
  }

  lemma FreeLost(formula: seq<seq<int>>, vc: nat, cc: nat, store: seq<seq<int>>, value: seq<int>, level: seq<nat>,
                 trail: seq<int>,
                 varOrder: seq<nat>, varPosition: seq<nat>, ordered: set<nat>, loaded: set<int>, nextVar: nat, lost: set<nat>, id: nat, i: nat)
    requires OrderOk(vc, varOrder, varPosition, ordered) && SkipOk(value, varOrder, nextVar, lost)
    requires forall i :: nextVar <= i < |varOrder| ==> Val(value, varOrder[i]) != 0
    requires Origin(formula, cc, store, ordered, loaded) && LoadedHeld(loaded, level, trail)
    requires forall i :: 0 <= i < |trail| ==> Val(value, trail[i]) == 1
    requires id < |store| && i < |store[id]| && |store[id]| >= 2 && Val(value, store[id][i]) == 0
    ensures Lost(cc, ordered, lost, id, store[id][i])
  {
    hide Forced;
    var l := store[id][i];
    assert Val(value, -l) == 0;
    forall t | t in trail ensures Val(value, t) == 1 {
    }
    if id < cc {
      assert Same(formula[id], store[id]) && l in store[id] && l in formula[id] && |formula[id]| >= 2;
      assert VarOf(l) in ordered || l in loaded || -l in loaded;
    }
    if VarOf(l) in ordered {
      assert VarOf(l) in varOrder;
      var k :| 0 <= k < |varOrder| && varOrder[k] == VarOf(l);
      assert varOrder[k] == l || varOrder[k] == -l;
    }
  }

  ghost predicate Plain(c: seq<int>) {
    forall x :: x in c ==> -x !in c
  }

  /** One lost variable is harmless, as propagation is complete: in clauses without opposite literals there is no pair of them. */
  lemma OneLost(formula: seq<seq<int>>, cc: nat, store: seq<seq<int>>, indices: seq<nat>, value: seq<int>,
                ordered: set<nat>, loaded: set<int>, lost: set<nat>)
    requires Origin(formula, cc, store, ordered, loaded) && |lost| <= 1 && forall c :: c in formula ==> Plain(c)
    requires forall id :: id in indices && id < |store| ==> Plain(store[id]) && forall x :: x in store[id] ==> VarOf(x) in ordered
    ensures !LostPair(cc, store, indices, value, ordered, lost)
  {
    hide Forced;
    forall id: nat, i: nat, j: nat | OpenPairAt(cc, store, indices, value, id, i, j)
      ensures !Lost(cc, ordered, lost, id, store[id][i]) || !Lost(cc, ordered, lost, id, store[id][j])
    {
      var x, y := store[id][i], store[id][j];
      assert x in store[id] && y in store[id];
      if id < cc {
        assert formula[id] in formula && Plain(formula[id]) && Same(formula[id], store[id]);
      }
      if VarOf(x) in lost && VarOf(y) in lost {
        Single(lost, VarOf(x), VarOf(y));
      }
    }
    hide Plain;
  }

  /** While nothing is lost no search fails its check. */
  lemma NoneLost(cc: nat, store: seq<seq<int>>, indices: seq<nat>, value: seq<int>, ordered: set<nat>)
    requires forall id :: id in indices && id < |store| ==> forall x :: x in store[id] ==> VarOf(x) in ordered
    ensures !LostPair(cc, store, indices, value, ordered, {})
  {
    forall id: nat, i: nat, j: nat | OpenPairAt(cc, store, indices, value, id, i, j) ensures !Lost(cc, ordered, {}, id, store[id][i]) {
      assert store[id][i] in store[id];
    }
  }

  lemma Single(s: set<nat>, a: nat, b: nat)
    requires |s| <= 1 && a in s && b in s
    ensures a == b
  {
    if a != b {
      assert {a, b} <= s;
      CardinalityAtLeast({a, b}, s);
    }
  }
}
