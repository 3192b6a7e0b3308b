/** verify_and_trim_Solution of dagster/SatSolver.cpp: which true literal of a clause is chosen, and which variables stay assigned. */
module Trimming {
  import opened Logic
  import opened Cdcl
  import opened SolverSteps

  /** Where the search for the least variable starts: at the last positive true literal or, if there is none, at the first true one. */
  ghost predicate StartsAt(value: seq<int>, c: seq<int>, p: nat) {
    && p < |c| && Val(value, c[p]) == 1
    && (forall i :: p < i < |c| && Val(value, c[i]) == 1 ==> c[i] <= 0)
    && (c[p] <= 0 ==> forall i :: 0 <= i < p ==> Val(value, c[i]) != 1)
  }

  ghost predicate LeastFrom(value: seq<int>, c: seq<int>, p: nat, k: nat) {
    && StartsAt(value, c, p) && p <= k < |c| && Val(value, c[k]) == 1
    && forall j :: p <= j < |c| && Val(value, c[j]) == 1 ==> VarOf(c[k]) <= VarOf(c[j])
  }

  /** Literal k of clause c is the one chosen: a true literal with a marked variable, if there is one, and otherwise the true literal
      with the least variable from the start on. */
  ghost predicate ChosenAt(value: seq<int>, mark: seq<bool>, c: seq<int>, k: nat) {
    && k < |c| && Val(value, c[k]) == 1
    && if NeedMarked(value, mark, c) then Marked(mark, c[k]) else exists p: nat :: LeastFrom(value, c, p, k)
  }

  /** The variable chosen is marked. */
  ghost predicate Chooses(value: seq<int>, mark: seq<bool>, c: seq<int>, mark': seq<bool>) {
    exists k: nat :: ChosenAt(value, mark, c, k) && VarOf(c[k]) < |mark| && mark' == mark[VarOf(c[k]) := true]
  }

  /** The clauses checked: those loaded, and the blocking clauses. */
  function Checked(cc: nat, store: seq<seq<int>>, indices: seq<nat>): seq<seq<int>> {
    (if cc <= |store| then store[..cc] else store)
    + seq(|indices|, i requires 0 <= i < |indices| => if indices[i] < |store| then store[indices[i]] else [])
  }

  function Front(cs: seq<seq<int>>): seq<seq<int>>
    requires cs != []
  {
    cs[..|cs| - 1]
  }

  function Last(cs: seq<seq<int>>): seq<int>
    requires cs != []
  {
    cs[|cs| - 1]
  }

  /** The marks once the clauses have been checked in turn. */
  ghost predicate MarksAfter(value: seq<int>, cs: seq<seq<int>>, mark: seq<bool>)
    decreases |cs|
  {
    if cs == [] then |mark| == |value| && forall v :: 1 <= v < |mark| ==> !mark[v]
    else exists mark0 :: MarksAfter(value, Front(cs), mark0) && Chooses(value, mark0, Last(cs), mark)
  }

  ghost predicate InUnits(units: seq<int>, v: nat) {
    exists i :: 0 <= i < |units| && VarOf(units[i]) == v
  }

  lemma InUnitsMore(units: seq<int>, n: nat)
    requires n < |units|
    ensures forall v: nat :: InUnits(units[..n + 1], v) <==> InUnits(units[..n], v) || v == VarOf(units[n])
  {
    forall v: nat ensures InUnits(units[..n + 1], v) <==> InUnits(units[..n], v) || v == VarOf(units[n]) {
      assert forall i :: 0 <= i < n ==> units[..n + 1][i] == units[..n][i];
      assert units[..n + 1][n] == units[n];
      if InUnits(units[..n], v) {
        var i :| 0 <= i < n && VarOf(units[..n][i]) == v;
        assert VarOf(units[..n + 1][i]) == v;
      }
    }
  }

  /** What stays assigned: the marked variables, and those of the blocking units. */
  ghost predicate Leaves(mark: seq<bool>, units: seq<int>, value: seq<int>, value': seq<int>) {
    && |value'| == |value| == |mark|
    && forall v :: 1 <= v < |value| ==> value'[v] == if mark[v] || InUnits(units, v) then value[v] else 0
  }

  ghost predicate Trims(cs: seq<seq<int>>, units: seq<int>, value: seq<int>, value': seq<int>) {
    exists mark :: MarksAfter(value, cs, mark) && Leaves(mark, units, value, value')
  }

  /** The trimmed assignment of a solver, whose stack still holds the literals that were true before. */
  ghost predicate TrimsStack(vc: nat, cs: seq<seq<int>>, units: seq<int>, trail: seq<int>, value': seq<int>) {
    exists value :: |value| == vc + 1 && value[0] == 0 && InRange(value) && (forall x :: LitOk(vc, x) ==> (Val(value, x) == 1 <==> x in trail))
      && Trims(cs, units, value, value')
  }

  // -------------------------------------------------------------- one clause

  lemma StartsOnce(value: seq<int>, c: seq<int>, p: nat, q: nat)
    requires StartsAt(value, c, p) && StartsAt(value, c, q)
    ensures p == q
  {
  }

  /** Whichever literal is chosen, its variable is the same, or was marked before. */
  lemma ChoosesOnce(value: seq<int>, mark: seq<bool>, c: seq<int>, a: seq<bool>, b: seq<bool>)
    requires Chooses(value, mark, c, a) && Chooses(value, mark, c, b)
    ensures a == b
  {
    var k: nat :| ChosenAt(value, mark, c, k) && VarOf(c[k]) < |mark| && a == mark[VarOf(c[k]) := true];
    var l: nat :| ChosenAt(value, mark, c, l) && VarOf(c[l]) < |mark| && b == mark[VarOf(c[l]) := true];
    if !NeedMarked(value, mark, c) {
      var p: nat :| LeastFrom(value, c, p, k);
      var q: nat :| LeastFrom(value, c, q, l);
      StartsOnce(value, c, p, q);
    }
  }

  /** The next true literal starts the search anew if it is positive, and is the least if its variable has a lower number ... */
  lemma LeastMore(value: seq<int>, c: seq<int>, n: nat, p: nat, k: nat)
    requires n < |c| && LeastFrom(value, c[..n], p, k) && Val(value, c[n]) == 1
    ensures LeastFrom(value, c[..n + 1], if c[n] > 0 then n else p, if c[n] > 0 || VarOf(c[n]) < VarOf(c[k]) then n else k)
  {
    assert forall i :: 0 <= i < n ==> c[..n + 1][i] == c[..n][i];
  }

  /** ... and a literal that is not true changes nothing. */
  lemma LeastSame(value: seq<int>, c: seq<int>, n: nat, p: nat, k: nat)
    requires n < |c| && LeastFrom(value, c[..n], p, k) && Val(value, c[n]) != 1
    ensures LeastFrom(value, c[..n + 1], p, k)
  {
    assert forall i :: 0 <= i < n ==> c[..n + 1][i] == c[..n][i];
  }

  lemma LeastFirst(value: seq<int>, c: seq<int>, n: nat)
    requires n < |c| && Val(value, c[n]) == 1 && forall i :: 0 <= i < n ==> Val(value, c[i]) != 1
    ensures LeastFrom(value, c[..n + 1], n, n)
  {
  }

  // -------------------------------------------------------------- all clauses

  lemma {:induction false} MarksOnce(value: seq<int>, cs: seq<seq<int>>, a: seq<bool>, b: seq<bool>)
    requires MarksAfter(value, cs, a) && MarksAfter(value, cs, b) && value != [] && value[0] == 0
    ensures |a| == |b| == |value| && forall v :: 1 <= v < |a| ==> a[v] == b[v]
    decreases |cs|
  {
    if cs != [] {
      var front, c := Front(cs), Last(cs);
      var a0 :| MarksAfter(value, front, a0) && Chooses(value, a0, c, a);
      var b0 :| MarksAfter(value, front, b0) && Chooses(value, b0, c, b);
      MarksOnce(value, front, a0, b0);
      ChoosesAlike(value, a0, b0, c, a, b);
    }
  }

  lemma ChoosesAlike(value: seq<int>, a0: seq<bool>, b0: seq<bool>, c: seq<int>, a: seq<bool>, b: seq<bool>)
    requires |a0| == |b0| && (forall v :: 1 <= v < |a0| ==> a0[v] == b0[v]) && value != [] && value[0] == 0
    requires Chooses(value, a0, c, a) && Chooses(value, b0, c, b)
    ensures |a| == |b| == |a0| && forall v :: 1 <= v < |a| ==> a[v] == b[v]
  {
    var k: nat :| ChosenAt(value, a0, c, k) && VarOf(c[k]) < |a0| && a == a0[VarOf(c[k]) := true];
    var l: nat :| ChosenAt(value, b0, c, l) && VarOf(c[l]) < |b0| && b == b0[VarOf(c[l]) := true];
    assert NeedMarked(value, a0, c) <==> NeedMarked(value, b0, c) by {
      forall i | 0 <= i < |c| && Val(value, c[i]) == 1 ensures Marked(a0, c[i]) <==> Marked(b0, c[i]) {
        assert VarOf(c[i]) != 0;
      }
    }
    if !NeedMarked(value, a0, c) {
      var p: nat :| LeastFrom(value, c, p, k);
      var q: nat :| LeastFrom(value, c, q, l);
      StartsOnce(value, c, p, q);
    }
  }

  /** A variable is marked for a reason: some clause chose it, while none of the clause's true literals had been marked. */
  lemma {:induction false} MarkedFor(value: seq<int>, cs: seq<seq<int>>, mark: seq<bool>, v: nat) returns (i: nat,
                                     mark0: seq<bool>, k: nat)
    requires MarksAfter(value, cs, mark) && 1 <= v < |mark| && mark[v]
    ensures i < |cs| && MarksAfter(value, cs[..i], mark0) && !NeedMarked(value, mark0, cs[i])
    ensures ChosenAt(value, mark0, cs[i], k) && VarOf(cs[i][k]) == v
    decreases |cs|
  {
    var n := |cs| - 1;
    var m :| MarksAfter(value, Front(cs), m) && Chooses(value, m, Last(cs), mark);
    assert Front(cs) == cs[..n];
    var l: nat :| ChosenAt(value, m, cs[n], l) && VarOf(cs[n][l]) < |m| && mark == m[VarOf(cs[n][l]) := true];
    if m[v] {
      i, mark0, k := MarkedFor(value, cs[..n], m, v);
      assert cs[..n][..i] == cs[..i];
    } else {
      i, mark0, k := n, m, l;
    }
  }

  /** Minimality: a variable stays assigned only if a blocking unit needs it, or some clause chose it when none of its true literals had
      been chosen before. */
  lemma KeptNeeded(cs: seq<seq<int>>, units: seq<int>, value: seq<int>, value': seq<int>, v: nat) returns (i: nat,
                   mark0: seq<bool>, k: nat)
    requires Trims(cs, units, value, value') && 1 <= v < |value'| && value'[v] != 0
    requires forall j :: 0 <= j < |units| ==> VarOf(units[j]) != v
    ensures i < |cs| && MarksAfter(value, cs[..i], mark0) && !NeedMarked(value, mark0, cs[i])
    ensures ChosenAt(value, mark0, cs[i], k) && VarOf(cs[i][k]) == v
  {
    var mark :| MarksAfter(value, cs, mark) && Leaves(mark, units, value, value');
    i, mark0, k := MarkedFor(value, cs, mark, v);
  }

  /** The outcome is determined. */
  lemma TrimsOnce(cs: seq<seq<int>>, units: seq<int>, value: seq<int>, a: seq<int>, b: seq<int>)
    requires Trims(cs, units, value, a) && Trims(cs, units, value, b) && value != [] && value[0] == 0
    ensures |a| == |b| && forall v :: 1 <= v < |a| ==> a[v] == b[v]
  {
    var mark :| MarksAfter(value, cs, mark) && Leaves(mark, units, value, a);
    var mark' :| MarksAfter(value, cs, mark') && Leaves(mark', units, value, b);
    MarksOnce(value, cs, mark, mark');
    hide MarksAfter;
  }

  lemma MarksMore(value: seq<int>, cs: seq<seq<int>>, n: nat, mark: seq<bool>, mark': seq<bool>)
    requires n < |cs| && MarksAfter(value, cs[..n], mark) && Chooses(value, mark, cs[n], mark')
    ensures MarksAfter(value, cs[..n + 1], mark')
  {
    hide Chooses;
    assert Front(cs[..n + 1]) == cs[..n];
    assert Last(cs[..n + 1]) == cs[n];
  }

  // ---------------------------------------------------------- for the check

  ghost predicate NoneMarked(value: seq<int>, mark: seq<bool>, c: seq<int>) {
    forall i :: 0 <= i < |c| && Val(value, c[i]) == 1 ==> !Marked(mark, c[i])
  }

  lemma NoneMarkedMore(value: seq<int>, mark: seq<bool>, c: seq<int>, k: nat)
    requires k < |c| && NoneMarked(value, mark, c[..k])
    ensures Val(value, c[k]) != 1 || !Marked(mark, c[k]) ==> NoneMarked(value, mark, c[..k + 1])
  {
    assert forall i :: 0 <= i < k ==> c[..k + 1][i] == c[..k][i];
  }

  lemma MarkedChosen(value: seq<int>, mark: seq<bool>, c: seq<int>, k: nat)
    requires k < |c| && Val(value, c[k]) == 1 && Marked(mark, c[k])
    ensures Chooses(value, mark, c, mark[VarOf(c[k]) := true])
  {
    assert NeedMarked(value, mark, c);
    assert ChosenAt(value, mark, c, k);
  }

  lemma LeastChosen(value: seq<int>, mark: seq<bool>, c: seq<int>, p: nat, k: nat)
    requires NoneMarked(value, mark, c) && LeastFrom(value, c, p, k) && VarOf(c[k]) < |mark|
    ensures Chooses(value, mark, c, mark[VarOf(c[k]) := true])
  {
    assert !NeedMarked(value, mark, c);
    assert ChosenAt(value, mark, c, k);
  }

  lemma CheckedAre(cc: nat, store: seq<seq<int>>, indices: seq<nat>)
    requires cc <= |store| && forall i :: 0 <= i < |indices| ==> indices[i] < |store|
    ensures var cs := Checked(cc, store, indices);
      && |cs| == cc + |indices| && (forall id :: 0 <= id < cc ==> cs[id] == store[id])
      && forall i :: 0 <= i < |indices| ==> cs[cc + i] == store[indices[i]]
  {
  }

  lemma MarksNone(value: seq<int>, cs: seq<seq<int>>, mark: seq<bool>)
    requires |mark| == |value| && forall v :: 1 <= v < |mark| ==> !mark[v]
    ensures MarksAfter(value, cs[..0], mark)
  {
  }

  lemma LeavesIntro(chosen: seq<bool>, mark: seq<bool>, units: seq<int>, value: seq<int>, value': seq<int>)
    requires |value'| == |value| == |mark| == |chosen|
    requires forall v :: 0 <= v < |mark| ==> (mark[v] <==> chosen[v] || InUnits(units, v))
    requires forall v :: 0 <= v < |mark| ==> value'[v] == if mark[v] then value[v] else 0
    ensures Leaves(chosen, units, value, value')
  {
  }

  /** At the end of a search the stack holds the true literals. */
  lemma StackTrims(base: seq<seq<int>>, s: State, cs: seq<seq<int>>, units: seq<int>, value': seq<int>)
    requires Inv(base, s, {}, -1, 0, []) && Trims(cs, units, s.value, value')
    ensures TrimsStack(s.vc, cs, units, s.trail, value')
  {
    hide Trims;
    BusyFacts(base, s, {}, 0, []);
    StoredByInv(base, s);
    TrailFacts(s.vc, s.value, s.level, s.trail, s.dLevel);
    hide Inv;
    assert InRange(s.value);
    forall x | LitOk(s.vc, x) ensures Val(s.value, x) == 1 <==> x in s.trail {
      if x in s.trail {
        var i :| 0 <= i < |s.trail| && s.trail[i] == x;
      }
    }
  }

  lemma ChoosesGrows(value: seq<int>, mark: seq<bool>, c: seq<int>, mark': seq<bool>)
    requires Chooses(value, mark, c, mark')
    ensures |mark'| == |mark| && NeedMarked(value, mark', c) && forall d :: NeedMarked(value, mark, d) ==> NeedMarked(value, mark', d)
  {
    var k: nat :| ChosenAt(value, mark, c, k) && VarOf(c[k]) < |mark| && mark' == mark[VarOf(c[k]) := true];
    NeedGrows(value, mark, mark', c);
  }

  ghost predicate AllNeeds(cc: nat, store: seq<seq<int>>, indices: seq<nat>, value: seq<int>, mark: seq<bool>) {
    && (forall j :: 0 <= j < cc && j < |store| ==> NeedMarked(value, mark, store[j]))
    && forall j :: 0 <= j < |indices| && indices[j] < |store| ==> NeedMarked(value, mark, store[indices[j]])
  }

  lemma NeedsKept(cc: nat, store: seq<seq<int>>, indices: seq<nat>, value: seq<int>, mark: seq<bool>, mark': seq<bool>)
    requires AllNeeds(cc, store, indices, value, mark) && |mark'| == |mark| && forall v :: 0 <= v < |mark| && mark[v] ==> mark'[v]
    ensures AllNeeds(cc, store, indices, value, mark')
  {
    MarksGrow(value, mark, mark');
    hide NeedMarked;
  }
}
