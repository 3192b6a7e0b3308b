/** Unit propagation, as a property of formulas: the literals it forces, the formulas it refutes and those it satisfies. What one
    run of the solver's propagation adds to the stack, and the conflicts it meets, are those of this closure. */
module UnitPropagation {
  import opened Logic
  import opened Cdcl
  import opened SolverSteps

  // --------------------------------------------------------- of formulas

  /** X refutes every literal of c but l. */
  ghost predicate OthersRefuted(X: iset<int>, c: seq<int>, l: int) {
    forall x :: x in c && x != l ==> -x in X
  }

  /** X holds the last literal of every clause whose other literals it refutes. */
  ghost predicate Closed(f: seq<seq<int>>, X: iset<int>) {
    forall c, l :: c in f && l in c && OthersRefuted(X, c, l) ==> l in X
  }

  ghost predicate Refutes(f: seq<seq<int>>, X: iset<int>) {
    exists c :: c in f && RefutesClause(X, c)
  }

  ghost predicate RefutesClause(X: iset<int>, c: seq<int>) {
    forall x :: x in c ==> -x in X
  }

  /** Unit propagation sets l: it is in every closed set. */
  ghost predicate Forced(f: seq<seq<int>>, l: int) {
    forall X: iset<int> :: Closed(f, X) ==> l in X
  }

  /** Unit propagation meets a conflict. */
  ghost predicate UnitRefuted(f: seq<seq<int>>) {
    forall X: iset<int> :: Closed(f, X) ==> Refutes(f, X)
  }

  /** Unit propagation makes a literal of every clause true. */
  ghost predicate UnitSatisfied(f: seq<seq<int>>) {
    forall c :: c in f ==> exists l :: l in c && Forced(f, l)
  }

  /** A clause whose literals other than l are refuted before sets l. */
  ghost predicate Derives(f: seq<seq<int>>, before: seq<int>, l: int) {
    exists c :: c in f && l in c && forall x :: x in c && x != l ==> -x in before
  }

  ghost predicate Derivation(f: seq<seq<int>>, d: seq<int>) {
    forall i :: 0 <= i < |d| ==> Derives(f, d[..i], d[i])
  }

  ghost predicate AllIn(X: iset<int>, lits: seq<int>) {
    forall i :: 0 <= i < |lits| ==> lits[i] in X
  }

  lemma DerivesIn(f: seq<seq<int>>, before: seq<int>, l: int, X: iset<int>)
    requires Derives(f, before, l) && Closed(f, X) && AllIn(X, before)
    ensures l in X
  {
    var c :| c in f && l in c && forall x :: x in c && x != l ==> -x in before;
    assert OthersRefuted(X, c, l);
  }

  lemma {:induction false} DerivedIn(f: seq<seq<int>>, d: seq<int>, X: iset<int>, n: nat)
    requires Derivation(f, d) && Closed(f, X) && n <= |d|
    ensures AllIn(X, d[..n])
    decreases n
  {
    hide Closed;
    hide Derives;
    if n > 0 {
      DerivedIn(f, d, X, n - 1);
      DerivesIn(f, d[..n - 1], d[n - 1], X);
    }
  }

  lemma DerivationsJoin(f: seq<seq<int>>, d: seq<int>, e: seq<int>)
    requires Derivation(f, d) && Derivation(f, e)
    ensures Derivation(f, d + e)
  {
    var s := d + e;
    forall i | 0 <= i < |s| ensures Derives(f, s[..i], s[i]) {
      if i < |d| {
        assert Derives(f, d[..i], d[i]) && s[..i] == d[..i];
      } else {
        assert Derives(f, e[..i - |d|], e[i - |d|]) && s[..i] == d + e[..i - |d|];
      }
    }
  }

  ghost predicate Derived(f: seq<seq<int>>, l: int) {
    exists d :: Derivation(f, d) && l in d
  }

  ghost function Derivable(f: seq<seq<int>>): iset<int> {
    iset l | Derived(f, l)
  }

  /** One derivation refutes all of the literals of c, those of skip excepted, if each is refuted by some. */
  lemma {:induction false} Gathered(f: seq<seq<int>>, c: seq<int>, skip: set<int>) returns (d: seq<int>)
    requires forall x :: x in c && x !in skip ==> Derived(f, -x)
    ensures Derivation(f, d) && forall x :: x in c && x !in skip ==> -x in d
    decreases |c|
  {
    if c == [] {
      d := [];
    } else {
      assert forall x :: x in c <==> x == c[0] || x in c[1..];
      var rest := Gathered(f, c[1..], skip);
      d := rest;
      if c[0] !in skip {
        var e :| Derivation(f, e) && -c[0] in e;
        DerivationsJoin(f, rest, e);
        d := rest + e;
      }
      hide Derivation;
    }
  }

  lemma DerivationGrows(f: seq<seq<int>>, d: seq<int>, l: int)
    requires Derivation(f, d) && Derives(f, d, l)
    ensures Derivation(f, d + [l])
  {
    var e := d + [l];
    forall i | 0 <= i < |e| ensures Derives(f, e[..i], e[i]) {
      assert e[..i] == d[..i];
      assert i < |d| ==> Derives(f, d[..i], d[i]);
    }
  }

  lemma DerivableClosed(f: seq<seq<int>>)
    ensures Closed(f, Derivable(f))
  {
    var X := Derivable(f);
    forall c, l | c in f && l in c && OthersRefuted(X, c, l) ensures l in X {
      var d := Gathered(f, c, {l});
      assert Derives(f, d, l);
      DerivationGrows(f, d, l);
      assert (d + [l])[|d|] == l;
    }
  }

  /** The forced literals are those that can be derived clause by clause. */
  lemma ForcedDerived(f: seq<seq<int>>, l: int)
    ensures Forced(f, l) <==> Derived(f, l)
  {
    hide Derivation;
    hide Closed;
    if Forced(f, l) {
      DerivableClosed(f);
    }
    if Derived(f, l) {
      var d :| Derivation(f, d) && l in d;
      forall X: iset<int> | Closed(f, X) ensures l in X {
        DerivedIn(f, d, X, |d|);
      }
    }
  }

  ghost predicate RefutesAll(d: seq<int>, c: seq<int>) {
    forall x :: x in c ==> -x in d
  }

  /** A formula is refuted exactly if a derivation refutes all literals of a clause. */
  lemma RefutedDerived(f: seq<seq<int>>)
    ensures UnitRefuted(f) <==> exists d, c :: Derivation(f, d) && c in f && RefutesAll(d, c)
  {
    hide Derivation;
    hide Closed;
    if UnitRefuted(f) {
      DerivableClosed(f);
      var c :| c in f && RefutesClause(Derivable(f), c);
      var d := Gathered(f, c, {});
      assert RefutesAll(d, c);
    }
    if d, c :| Derivation(f, d) && c in f && RefutesAll(d, c) {
      forall X: iset<int> | Closed(f, X) ensures Refutes(f, X) {
        DerivedIn(f, d, X, |d|);
        assert RefutesClause(X, c);
      }
    }
  }

  // ------------------------------------------------------- of the solver

  ghost predicate ClosedLists(imp: map<int, seq<int>>, X: iset<int>) {
    forall l, o :: l in imp && o in imp[l] && -l in X ==> o in X
  }

  ghost predicate RefutesLists(imp: map<int, seq<int>>, X: iset<int>) {
    exists l, o :: l in imp && o in imp[l] && -l in X && -o in X
  }

  /** What propagation may do from trail0 on: every closed set that holds trail0 holds trail1 too if it succeeds, and refutes a clause
      if it fails. */
  ghost predicate UpStep(store: seq<seq<int>>, imp: map<int, seq<int>>, trail0: seq<int>, trail1: seq<int>, ok: bool) {
    forall X: iset<int> :: Closed(store, X) && ClosedLists(imp, X) && AllIn(X, trail0) ==>
      if ok then AllIn(X, trail1) else Refutes(store, X) || RefutesLists(imp, X)
  }

  lemma UpNone(store: seq<seq<int>>, imp: map<int, seq<int>>, trail: seq<int>)
    ensures UpStep(store, imp, trail, trail, true)
  {
  }

  lemma AllInMore(X: iset<int>, trail: seq<int>, o: int)
    requires AllIn(X, trail) && o in X
    ensures AllIn(X, trail + [o])
  {
  }

  lemma MemberIn(X: iset<int>, trail: seq<int>, l: int)
    requires AllIn(X, trail) && l in trail
    ensures l in X
  {
  }

  lemma UpBinary(store: seq<seq<int>>, imp: map<int, seq<int>>, trail: seq<int>, p: int, o: int)
    requires p in trail && -p in imp && o in imp[-p]
    ensures UpStep(store, imp, trail, trail + [o], true)
  {
    hide Closed;
    hide AllIn;
    forall X: iset<int> | Closed(store, X) && ClosedLists(imp, X) && AllIn(X, trail) ensures AllIn(X, trail + [o]) {
      MemberIn(X, trail, p);
      assert -(-p) in X;
      AllInMore(X, trail, o);
    }
    hide ClosedLists;
  }

  lemma UpBinaryConflict(store: seq<seq<int>>, imp: map<int, seq<int>>, trail: seq<int>, trail': seq<int>, p: int, o: int)
    requires p in trail && -o in trail && -p in imp && o in imp[-p]
    ensures UpStep(store, imp, trail, trail', false)
  {
    hide Closed;
    hide AllIn;
    hide ClosedLists;
    forall X: iset<int> | Closed(store, X) && ClosedLists(imp, X) && AllIn(X, trail) ensures RefutesLists(imp, X) {
      MemberIn(X, trail, p);
      MemberIn(X, trail, -o);
      assert -(-p) in X;
    }
  }

  lemma UpImplied(store: seq<seq<int>>, imp: map<int, seq<int>>, trail: seq<int>, id: nat, l: int)
    requires id < |store| && l in store[id] && forall x :: x in store[id] && x != l ==> -x in trail
    ensures UpStep(store, imp, trail, trail + [l], true)
  {
    hide ClosedLists;
    hide AllIn;
    forall X: iset<int> | Closed(store, X) && ClosedLists(imp, X) && AllIn(X, trail) ensures AllIn(X, trail + [l]) {
      forall x | x in store[id] && x != l ensures -x in X {
        MemberIn(X, trail, -x);
      }
      assert store[id] in store && OthersRefuted(X, store[id], l);
      AllInMore(X, trail, l);
    }
  }

  lemma UpConflict(store: seq<seq<int>>, imp: map<int, seq<int>>, trail: seq<int>, trail': seq<int>, id: nat)
    requires id < |store| && forall x :: x in store[id] ==> -x in trail
    ensures UpStep(store, imp, trail, trail', false)
  {
    hide ClosedLists;
    hide AllIn;
    hide Closed;
    forall X: iset<int> | Closed(store, X) && ClosedLists(imp, X) && AllIn(X, trail) ensures Refutes(store, X) {
      forall x | x in store[id] ensures -x in X {
        MemberIn(X, trail, -x);
      }
      assert store[id] in store && RefutesClause(X, store[id]);
    }
  }

  /** Permuting stored clauses changes neither the closed sets nor the sets that refute a clause. */
  lemma SameClosed(f: seq<seq<int>>, g: seq<seq<int>>, X: iset<int>)
    requires |f| == |g| && forall id :: 0 <= id < |f| ==> Same(f[id], g[id])
    ensures Closed(f, X) ==> Closed(g, X)
    ensures Refutes(g, X) ==> Refutes(f, X)
  {
    if Closed(f, X) {
      forall c, l | c in g && l in c && OthersRefuted(X, c, l) ensures l in X {
        var id :| 0 <= id < |g| && g[id] == c;
        assert f[id] in f && OthersRefuted(X, f[id], l);
      }
    }
    if Refutes(g, X) {
      var c :| c in g && RefutesClause(X, c);
      var id :| 0 <= id < |g| && g[id] == c;
      assert f[id] in f && RefutesClause(X, f[id]);
    }
  }

  lemma UpChain(cc: nat, store: seq<seq<int>>, store': seq<seq<int>>, imp: map<int, seq<int>>, trail0: seq<int>,
                trail1: seq<int>, trail2: seq<int>, ok: bool)
    requires Evolves(cc, store, store') && |store| == |store'|
    requires UpStep(store, imp, trail0, trail1, true) && UpStep(store', imp, trail1, trail2, ok)
    ensures UpStep(store, imp, trail0, trail2, ok)
  {
    hide Closed;
    hide ClosedLists;
    hide AllIn;
    hide Refutes;
    hide RefutesLists;
    assert forall id :: 0 <= id < |store| ==> Same(store[id], store'[id]);
    hide Same;
    forall X: iset<int> | Closed(store, X) && ClosedLists(imp, X) && AllIn(X, trail0)
      ensures if ok then AllIn(X, trail2) else Refutes(store, X) || RefutesLists(imp, X)
    {
      SameClosed(store, store', X);
    }
  }

  /** Stacks with the same literals have the same consequences. */
  lemma UpSame(store: seq<seq<int>>, imp: map<int, seq<int>>, trail: seq<int>, trail': seq<int>)
    requires forall x :: x in trail' ==> x in trail
    ensures UpStep(store, imp, trail, trail', true)
  {
    hide Closed;
    hide ClosedLists;
    forall X: iset<int> | Closed(store, X) && ClosedLists(imp, X) && AllIn(X, trail) ensures AllIn(X, trail') {
      forall i | 0 <= i < |trail'| ensures trail'[i] in X {
        MemberIn(X, trail, trail'[i]);
      }
    }
  }

  lemma UpFail(store: seq<seq<int>>, imp: map<int, seq<int>>, trail0: seq<int>, trail1: seq<int>, trail2: seq<int>)
    requires UpStep(store, imp, trail0, trail1, false)
    ensures UpStep(store, imp, trail0, trail2, false)
  {
    hide Closed;
    hide ClosedLists;
    hide AllIn;
  }

  /** A visited clause whose other literals are false sets its other watched literal ... */
  lemma VisitImplied(s: State, id: nat, w: nat)
    requires TrailOk(s.vc, s.value, s.level, s.trail, s.dLevel) && id < |s.store| && w <= 1
    requires var c := s.store[id];
      |c| >= 2 && (forall k :: 0 <= k < |c| ==> LitOk(s.vc, c[k])) && forall k :: 0 <= k < |c| && k != 1 - w ==> Val(s.value, c[k]) == -1
    ensures UpStep(s.store, s.imp, s.trail, s.trail + [s.store[id][1 - w]], true)
  {
    hide UpStep;
    var c := s.store[id];
    forall x | x in c && x != c[1 - w] ensures -x in s.trail {
      var k :| 0 <= k < |c| && c[k] == x;
      assert LitOk(s.vc, -x) && Val(s.value, -x) == 1;
    }
    UpImplied(s.store, s.imp, s.trail, id, c[1 - w]);
  }

  /** ... or is falsified, if that one is false too. */
  lemma VisitRefuted(s: State, id: nat, w: nat, trail: seq<int>)
    requires TrailOk(s.vc, s.value, s.level, s.trail, s.dLevel) && id < |s.store| && w <= 1
    requires var c := s.store[id];
      && |c| >= 2 && (forall k :: 0 <= k < |c| ==> LitOk(s.vc, c[k]))
      && Val(s.value, c[w]) == -1 && Val(s.value, c[1 - w]) == -1 && forall k :: 2 <= k < |c| ==> Val(s.value, c[k]) == -1
    ensures UpStep(s.store, s.imp, s.trail, trail, false)
  {
    hide UpStep;
    FalsifiedNegations(s, s.store[id], w);
    UpConflict(s.store, s.imp, s.trail, trail, id);
  }

  // ------------------------------------------------- clauses too long to propagate

  /** Every clause has n or more literals, and none is binary. */
  ghost predicate Roomy(store: seq<seq<int>>, imp: map<int, seq<int>>, n: nat) {
    !Listed(imp) && forall id :: 0 <= id < |store| ==> |store[id]| >= n && NoDuplicates(store[id])
  }

  /** Refuting all literals of a clause but one takes as many true literals. */
  lemma {:induction false} RefutedBound(c: seq<int>, skip: set<int>, trail: seq<int>)
    requires NoDuplicates(c) && forall x :: x in c && x !in skip ==> -x in trail
    ensures |c| <= |trail| + |skip|
    decreases |c|
  {
    if c != [] {
      var x := c[0];
      assert forall y :: y in c[1..] ==> y in c && y != x;
      if x in skip {
        RefutedBound(c[1..], skip - {x}, trail);
      } else {
        var i :| 0 <= i < |trail| && trail[i] == -x;
        var rest := trail[..i] + trail[i + 1..];
        forall y | y in c[1..] && y !in skip ensures -y in rest {
          var j :| 0 <= j < |trail| && trail[j] == -y;
          assert rest[if j < i then j else j - 1] == -y;
        }
        RefutedBound(c[1..], skip, rest);
      }
    }
  }

  /** While every clause has two literals more than the stack, propagation adds nothing and meets no conflict. */
  lemma RoomyQuiet(store: seq<seq<int>>, imp: map<int, seq<int>>, trail0: seq<int>, trail1: seq<int>, ok: bool)
    requires Roomy(store, imp, |trail0| + 2) && UpStep(store, imp, trail0, trail1, ok)
    ensures ok && forall i :: 0 <= i < |trail1| ==> trail1[i] in trail0
  {
    var X := iset x | x in trail0;
    forall c, l | c in store && l in c ensures !OthersRefuted(X, c, l) {
      if OthersRefuted(X, c, l) {
        RefutedBound(c, {l}, trail0);
      }
    }
    forall c | c in store ensures !RefutesClause(X, c) {
      if RefutesClause(X, c) {
        RefutedBound(c, {}, trail0);
      }
    }
    assert Closed(store, X) && !Refutes(store, X);
    assert ClosedLists(imp, X) && !RefutesLists(imp, X);
    assert AllIn(X, trail0);
  }

  // ------------------------------------------------------ the loaded formula

  /** The first cc clauses of the store are those of the formula, whose literals propagation may have permuted. */
  ghost predicate Copied(formula: seq<seq<int>>, cc: nat, store: seq<seq<int>>) {
    cc == |formula| <= |store| && forall id :: 0 <= id < cc ==> |formula[id]| == |store[id]| && Same(formula[id], store[id])
  }

  lemma CopiedItself(formula: seq<seq<int>>, cc: nat, store: seq<seq<int>>)
    requires store == formula && cc == |store|
    ensures Copied(formula, cc, store)
  {
  }

  lemma CopiedKept(formula: seq<seq<int>>, cc: nat, store: seq<seq<int>>, store': seq<seq<int>>)
    requires Copied(formula, cc, store) && Evolves(cc, store, store')
    ensures Copied(formula, cc, store')
  {
    forall id | 0 <= id < cc ensures |formula[id]| == |store'[id]| && Same(formula[id], store'[id]) {
      assert Same(formula[id], store[id]) && Same(store[id], store'[id]);
    }
  }

  /** What loading found out: loaded, the root level, is forced by the formula, and the order holds the other variables of clauses
      of two or more literals. */
  ghost predicate Origin(formula: seq<seq<int>>, cc: nat, store: seq<seq<int>>, ordered: set<nat>, loaded: set<int>) {
    && Copied(formula, cc, store)
    && (forall l :: l in loaded ==> Forced(formula, l))
    && forall id, x :: 0 <= id < |formula| && |formula[id]| >= 2 && x in formula[id] ==> VarOf(x) in ordered || x in loaded || -x in loaded
  }

  lemma OriginKept(formula: seq<seq<int>>, cc: nat, store: seq<seq<int>>, ordered: set<nat>, loaded: set<int>,
                   store': seq<seq<int>>)
    requires Origin(formula, cc, store, ordered, loaded) && Evolves(cc, store, store')
    ensures Origin(formula, cc, store', ordered, loaded)
  {
    hide Forced;
    CopiedKept(formula, cc, store, store');
    hide Copied;
  }

  /** The root literals found at loading are on the root level. */
  ghost predicate LoadedHeld(loaded: set<int>, level: seq<nat>, trail: seq<int>) {
    forall l :: l in loaded ==> l in trail && Lev(level, l) <= 1
  }

  lemma LoadedHeldKept(loaded: set<int>, level: seq<nat>, trail: seq<int>, level': seq<nat>, trail': seq<int>)
    requires LoadedHeld(loaded, level, trail) && RootsKept(level, trail, level', trail')
    ensures LoadedHeld(loaded, level', trail')
  {
  }

  lemma RootHeldLoaded(vc: nat, value: seq<int>, level: seq<nat>, trail: seq<int>)
    requires TrailOk(vc, value, level, trail, 1)
    ensures LoadedHeld(Elems(trail), level, trail)
  {
    forall l | l in Elems(trail) ensures Lev(level, l) <= 1 {
      var i :| 0 <= i < |trail| && trail[i] == l;
    }
  }

  ghost function TrailSet(trail: seq<int>): iset<int> {
    iset x | x in trail
  }

  /** With propagation complete at the root level, the stack is closed under the formula and refutes none of its clauses. */
  lemma RootClosed(base: seq<seq<int>>, s: State, formula: seq<seq<int>>, indices: seq<nat>, units: seq<int>)
    requires Inv(base, s, {}, -1, 0, []) && s.dLevel == 1 && Link(base, s.cc, s.store, s.imp, indices, units)
    requires RootsHeld(s.cc, s.store, units, s.level, s.trail) && Copied(formula, s.cc, s.store)
    ensures Closed(formula, TrailSet(s.trail)) && !Refutes(formula, TrailSet(s.trail))
  {
    BusyFacts(base, s, {}, 0, []);
    TrailFacts(s.vc, s.value, s.level, s.trail, s.dLevel);
    forall c | c in formula ensures !RefutesClause(TrailSet(s.trail), c) && forall l :: l in c && OthersRefuted(TrailSet(s.trail), c, l) ==> l in s.trail {
      var id :| 0 <= id < |formula| && formula[id] == c;
      ClauseOpen(base, s, indices, units, id);
      CopyOpen(s.vc, s.value, s.trail, s.store[id], c);
    }
    hide Inv;
    hide Link;
    hide RootsHeld;
    hide Copied;
    hide OthersRefuted;
    hide RefutesClause;
  }

  lemma CopyOpen(vc: nat, value: seq<int>, trail: seq<int>, d: seq<int>, c: seq<int>)
    requires OpenTwice(value, d) && ClauseShape(vc, d) && Same(c, d)
    requires (forall i :: 0 <= i < |trail| ==> Val(value, trail[i]) == 1) && forall x :: LitOk(vc, x) && Val(value, x) == 1 ==> x in trail
    ensures !RefutesClause(TrailSet(trail), c) && forall l :: l in c && OthersRefuted(TrailSet(trail), c, l) ==> l in trail
  {
    forall x | x in d && -x in trail ensures Val(value, x) == -1 {
      var i :| 0 <= i < |trail| && trail[i] == -x;
      assert Val(value, -x) == 1;
    }
    if x :| x in d && Val(value, x) == 1 {
      assert x in c && LitOk(vc, x) && x in trail;
    } else {
      var i, j :| 0 <= i < j < |d| && Val(value, d[i]) == 0 && Val(value, d[j]) == 0;
      assert d[i] in c && d[j] in c && d[i] != d[j];
    }
  }

  /** A reset finds the root literals of loading again. */
  lemma Reloaded(base: seq<seq<int>>, s: State, formula: seq<seq<int>>, ordered: set<nat>, loaded: set<int>,
                 indices: seq<nat>, units: seq<int>)
    requires Inv(base, s, {}, -1, 0, []) && s.dLevel == 1 && Link(base, s.cc, s.store, s.imp, indices, units)
    requires RootsHeld(s.cc, s.store, units, s.level, s.trail) && Origin(formula, s.cc, s.store, ordered, loaded)
    ensures LoadedHeld(loaded, s.level, s.trail)
  {
    RootClosed(base, s, formula, indices, units);
    BusyFacts(base, s, {}, 0, []);
    hide Inv;
    hide Link;
    hide RootsHeld;
    hide Closed;
    forall l | l in loaded ensures l in s.trail && Lev(s.level, l) <= 1 {
      assert Forced(formula, l);
      assert l in TrailSet(s.trail);
      var i :| 0 <= i < |s.trail| && s.trail[i] == l;
      RootLiteral(s.vc, s.value, s.level, s.trail, i);
    }
  }

  /** Loading puts only forced literals on the stack. */
  lemma LoadedForced(f: seq<seq<int>>, imp: map<int, seq<int>>, trail: seq<int>, X: iset<int>)
    requires Loaded(f, imp, trail) && Closed(f, X)
    ensures ClosedLists(imp, X) && AllIn(X, trail)
  {
    forall l, o | l in imp && o in imp[l] && -l in X ensures o in X {
      var c := if [l, o] in f then [l, o] else [o, l];
      assert c in f && o in c && OthersRefuted(X, c, o);
    }
    forall i | 0 <= i < |trail| ensures trail[i] in X {
      assert [trail[i]] in f && trail[i] in [trail[i]] && OthersRefuted(X, [trail[i]], trail[i]);
    }
  }

  lemma ListsRefuted(f: seq<seq<int>>, imp: map<int, seq<int>>, trail: seq<int>, X: iset<int>)
    requires Loaded(f, imp, trail) && RefutesLists(imp, X)
    ensures Refutes(f, X)
  {
    var l, o :| l in imp && o in imp[l] && -l in X && -o in X;
    var c := if [l, o] in f then [l, o] else [o, l];
    assert c in f && RefutesClause(X, c);
  }

  /** What propagation sets after loading is forced by the formula, and a conflict refutes it. */
  lemma LoadedUp(f: seq<seq<int>>, imp: map<int, seq<int>>, trail0: seq<int>, trail1: seq<int>, ok: bool)
    requires Loaded(f, imp, trail0) && UpStep(f, imp, trail0, trail1, ok)
    ensures if ok then forall l :: l in trail1 ==> Forced(f, l) else UnitRefuted(f)
  {
    hide ClosedLists;
    hide Loaded;
    hide RefutesLists;
    forall X: iset<int> | Closed(f, X) ensures if ok then AllIn(X, trail1) else Refutes(f, X) {
      LoadedForced(f, imp, trail0, X);
      if !ok && RefutesLists(imp, X) {
        ListsRefuted(f, imp, trail0, X);
      }
    }
    hide Closed;
  }

  /** A formula that loading gives up on is refuted by unit propagation. */
  lemma LoadRefuted(f: seq<seq<int>>, g: seq<seq<int>>, imp: map<int, seq<int>>, trail: seq<int>, c: seq<int>)
    requires Loaded(g, imp, trail) && (forall d :: d in g ==> d in f) && c in f && (c == [] || (|c| == 1 && -c[0] in trail))
    ensures UnitRefuted(f)
  {
    forall X: iset<int> | Closed(f, X) ensures Refutes(f, X) {
      assert Closed(g, X);
      LoadedForced(g, imp, trail, X);
      assert RefutesClause(X, c);
    }
  }

  /** After loading, the stack is exactly what unit propagation sets, and the formula is not refuted by it. */
  ghost predicate Settled(formula: seq<seq<int>>, trail: seq<int>) {
    !UnitRefuted(formula) && forall l :: l in trail <==> Forced(formula, l)
  }

  lemma RootSettled(base: seq<seq<int>>, s: State, formula: seq<seq<int>>, indices: seq<nat>, units: seq<int>)
    requires Inv(base, s, {}, -1, 0, []) && s.dLevel == 1 && Link(base, s.cc, s.store, s.imp, indices, units)
    requires RootsHeld(s.cc, s.store, units, s.level, s.trail) && Copied(formula, s.cc, s.store)
    requires forall l :: l in s.trail ==> Forced(formula, l)
    ensures Settled(formula, s.trail)
  {
    RootClosed(base, s, formula, indices, units);
    hide Inv;
    hide Link;
    hide RootsHeld;
    hide Copied;
    hide Closed;
    hide Refutes;
    assert forall l :: l in TrailSet(s.trail) ==> l in s.trail;
  }

  /** The order made at loading and the root level account for every variable of a clause of two or more literals. */
  lemma OriginStarts(vc: nat, formula: seq<seq<int>>, cc: nat, store: seq<seq<int>>, value: seq<int>, trail: seq<int>,
                     varOrder: seq<nat>,
                     ordered: set<nat>)
    requires forall v :: v in varOrder ==> v in ordered
    requires Copied(formula, cc, store) && AllOrdered(vc, formula, value, varOrder) && forall l :: l in trail ==> Forced(formula, l)
    requires (forall x :: LitOk(vc, x) && Val(value, x) == 1 ==> x in trail) && forall x :: -1 <= Val(value, x) <= 1
    requires forall c :: c in formula ==> ClauseShape(vc, c)
    ensures Origin(formula, cc, store, ordered, Elems(trail))
  {
    hide Copied;
    hide Forced;
    forall id, x | 0 <= id < |formula| && |formula[id]| >= 2 && x in formula[id] ensures VarOf(x) in varOrder || x in trail || -x in trail {
      assert formula[id] in formula && ClauseShape(vc, formula[id]);
      assert LitOk(vc, x) && LitOk(vc, -x);
      assert Scored(formula, VarOf(x));
      if value[VarOf(x)] != 0 {
        assert Val(value, x) == 1 || Val(value, -x) == 1;
      }
    }
  }
}
