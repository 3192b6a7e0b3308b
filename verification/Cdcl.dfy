/** The CDCL engine of dagster/CnfManager: two watched literals, binary implication lists,
    1-UIP learning with local minimisation, and backjumping. The state is described here by a
    value; SatSolver.dfy holds the class whose fields these are. */
module Cdcl {
  import opened Logic

  /** Why a literal is on the trail: decided, a root-level fact, the binary clause (lit or other),
      or the stored clause whose first literal it is. */
  datatype Ante = Decided | Root | Binary(other: int) | Stored(id: nat)

  /** value: -1 false, 0 free, 1 true. store holds the cc clauses of the formula and then the learned and
      blocking clauses; imp[l] lists the literals implied by l being false; watch[l] lists the clauses watching l. */
  datatype State = State(vc: nat, cc: nat, store: seq<seq<int>>, imp: map<int, seq<int>>, watch: map<int, seq<nat>>,
                         value: seq<int>, level: seq<nat>, ante: seq<Ante>, trail: seq<int>, dLevel: nat)

  predicate LitOk(vc: nat, l: int) {
    1 <= VarOf(l) <= vc
  }

  /** 1 if l is SET, -1 if it is RESOLVED, 0 if it is FREE. */
  function Val(value: seq<int>, l: int): int {
    if VarOf(l) >= |value| then 0 else if l > 0 then value[l] else -value[-l]
  }

  function Lev(level: seq<nat>, l: int): nat {
    if VarOf(l) >= |level| then 0 else level[VarOf(l)]
  }

  function AnteOf(ante: seq<Ante>, l: int): Ante {
    if VarOf(l) >= |ante| then Root else ante[VarOf(l)]
  }

  function SignOf(l: int): int {
    if l > 0 then 1 else -1
  }

  // --------------------------------------------------------------- invariant

  ghost predicate ClauseShape(vc: nat, c: seq<int>) {
    NoDuplicates(c) && forall k :: 0 <= k < |c| ==> LitOk(vc, c[k])
  }

  ghost predicate VarsShape(vc: nat, value: seq<int>, level: seq<nat>, ante: seq<Ante>) {
    |value| == |level| == |ante| == vc + 1 && value[0] == 0 && forall v :: 0 <= v <= vc ==> -1 <= value[v] <= 1
  }

  ghost predicate StoreShape(vc: nat, cc: nat, store: seq<seq<int>>) {
    && cc <= |store|
    && (forall id :: 0 <= id < |store| ==> ClauseShape(vc, store[id]))
    && (forall id :: cc <= id < |store| ==> |store[id]| >= 2)
  }

  ghost predicate ListShape(vc: nat, imp: map<int, seq<int>>, watch: map<int, seq<nat>>) {
    && (forall l :: LitOk(vc, l) ==> l in imp && l in watch)
    && (forall l, o :: LitOk(vc, l) && o in imp[l] ==> LitOk(vc, o) && o != l && l in imp[o])
  }

  /** The trail lists the true literals once each, by non-decreasing level. */
  ghost predicate TrailOk(vc: nat, value: seq<int>, level: seq<nat>, trail: seq<int>, dLevel: nat) {
    && NoDuplicates(trail)
    && (forall i :: 0 <= i < |trail| ==> LitOk(vc, trail[i]) && Val(value, trail[i]) == 1)
    && (forall l :: LitOk(vc, l) && Val(value, l) == 1 ==> l in trail)
    && (forall i :: 0 <= i < |trail| ==> 1 <= Lev(level, trail[i]) <= dLevel)
    && (forall i, j :: 0 <= i <= j < |trail| ==> Lev(level, trail[i]) <= Lev(level, trail[j]))
  }

  /** The literals, besides the implied one, of the clause behind antecedent a. */
  function AnteLits(store: seq<seq<int>>, a: Ante): seq<int> {
    match a
    case Decided => []
    case Root => []
    case Binary(o) => [o]
    case Stored(id) => if id < |store| && store[id] != [] then store[id][1..] else []
  }

  /** The antecedent a of l: a clause of the solver whose other literals are all false, and were so before l. */
  ghost predicate Reason(vc: nat, store: seq<seq<int>>, imp: map<int, seq<int>>, l: int, a: Ante, before: seq<int>) {
    match a
    case Decided => false
    case Root => false
    case Binary(o) => (LitOk(vc, o) && o in imp && l in imp[o] && -o in before)
    case Stored(id) =>
      (id < |store| && |store[id]| >= 2 && store[id][0] == l && forall k :: 1 <= k < |store[id]| ==> -store[id][k] in before)
  }

  /** Trail entry i is the first of its level. */
  ghost predicate Opens(level: seq<nat>, trail: seq<int>, i: nat)
    requires i < |trail|
  {
    i == 0 || Lev(level, trail[i - 1]) < Lev(level, trail[i])
  }

  /** Above the root level the first literal of a level is its decision and every other one has a reason. */
  ghost predicate AnteOk(vc: nat, store: seq<seq<int>>, imp: map<int, seq<int>>, level: seq<nat>, ante: seq<Ante>,
                         trail: seq<int>, i: nat)
    requires i < |trail|
  {
    Lev(level, trail[i]) >= 2 ==>
      if Opens(level, trail, i) then AnteOf(ante, trail[i]) == Decided
      else Reason(vc, store, imp, trail[i], AnteOf(ante, trail[i]), trail[..i])
  }

  ghost predicate AntesOk(vc: nat, store: seq<seq<int>>, imp: map<int, seq<int>>, level: seq<nat>, ante: seq<Ante>,
                          trail: seq<int>) {
    forall i: nat :: i < |trail| ==> AnteOk(vc, store, imp, level, ante, trail, i)
  }

  /** Watched clauses: those of the formula with three or more literals, and every added one. */
  predicate Watched(cc: nat, store: seq<seq<int>>, id: nat) {
    id < |store| && (|store[id]| >= 3 || (id >= cc && |store[id]| >= 2))
  }

  ghost predicate Filed(cc: nat, store: seq<seq<int>>, watch: map<int, seq<nat>>) {
    && (forall id: nat, w :: Watched(cc, store, id) && 0 <= w <= 1 ==> store[id][w] in watch && id in watch[store[id][w]])
    && (forall l, id: nat :: l in watch && id in watch[l] ==> Watched(cc, store, id) && (store[id][0] == l || store[id][1] == l))
    && (forall l :: l in watch ==> NoDuplicates(watch[l]))
  }

  /** Every false watched literal has a true partner that was so no later, except those whose negation is still to be
      processed, those of clause except, and the references in rest to a literal litFalse being processed. */
  ghost predicate WatchesDone(cc: nat, store: seq<seq<int>>, value: seq<int>, level: seq<nat>,
                              todo: set<int>, except: int, litFalse: int, rest: seq<nat>) {
    forall id: nat, w :: Watched(cc, store, id) && 0 <= w <= 1 && id != except
      && Val(value, store[id][w]) == -1 && -store[id][w] !in todo && !(store[id][w] == litFalse && id in rest)
      ==> Val(value, store[id][1 - w]) == 1 && Lev(level, store[id][1 - w]) <= Lev(level, store[id][w])
  }

  ghost predicate BinariesDone(vc: nat, imp: map<int, seq<int>>, value: seq<int>, level: seq<nat>, todo: set<int>) {
    forall l, o :: LitOk(vc, l) && Val(value, l) == -1 && -l !in todo && l in imp && o in imp[l]
      ==> Val(value, o) == 1 && Lev(level, o) <= Lev(level, l)
  }

  ghost predicate TodoOk(vc: nat, value: seq<int>, level: seq<nat>, dLevel: nat, todo: set<int>) {
    forall l :: l in todo ==> LitOk(vc, l) && Val(value, l) == 1 && Lev(level, l) == dLevel
  }

  // ----------------------------------------------------------- entailment

  ghost predicate Entails(base: seq<seq<int>>, c: seq<int>) {
    forall a: Assignment :: Models(a, base) ==> Satisfies(a, c)
  }

  /** Every clause the solver holds follows from the base formula ... */
  ghost predicate StoreSound(base: seq<seq<int>>, store: seq<seq<int>>, imp: map<int, seq<int>>) {
    && (forall id :: 0 <= id < |store| ==> Entails(base, store[id]))
    && (forall l, o :: l in imp && o in imp[l] ==> Entails(base, [l, o]))
  }

  /** ... and so does every literal of the root level. */
  ghost predicate RootSound(base: seq<seq<int>>, level: seq<nat>, trail: seq<int>) {
    forall i :: 0 <= i < |trail| && Lev(level, trail[i]) <= 1 ==> Entails(base, [trail[i]])
  }

  ghost predicate Inv(base: seq<seq<int>>, s: State, todo: set<int>, except: int, litFalse: int, rest: seq<nat>) {
    && VarsShape(s.vc, s.value, s.level, s.ante)
    && StoreShape(s.vc, s.cc, s.store)
    && ListShape(s.vc, s.imp, s.watch)
    && TrailOk(s.vc, s.value, s.level, s.trail, s.dLevel)
    && AntesOk(s.vc, s.store, s.imp, s.level, s.ante, s.trail)
    && Filed(s.cc, s.store, s.watch)
    && WatchesDone(s.cc, s.store, s.value, s.level, todo, except, litFalse, rest)
    && BinariesDone(s.vc, s.imp, s.value, s.level, todo)
    && TodoOk(s.vc, s.value, s.level, s.dLevel, todo)
    && StoreSound(base, s.store, s.imp)
    && RootSound(base, s.level, s.trail)
  }

  // ------------------------------------------------- assigning a literal

  function Place(s: State, l: int, a: Ante): State
    requires LitOk(s.vc, l) && |s.value| == |s.level| == |s.ante| == s.vc + 1
  {
    var v := VarOf(l);
    s.(value := s.value[v := SignOf(l)], level := s.level[v := s.dLevel], ante := s.ante[v := a], trail := s.trail + [l])
  }

  lemma PlaceVal(value: seq<int>, l: int, x: int)
    requires 1 <= VarOf(l) < |value|
    ensures Val(value[VarOf(l) := SignOf(l)], x) == if x == l then 1 else if x == -l then -1 else Val(value, x)
  {
  }

  lemma PlaceVals(value: seq<int>, l: int)
    requires 1 <= VarOf(l) < |value|
    ensures forall x :: Val(value[VarOf(l) := SignOf(l)], x) == if x == l then 1 else if x == -l then -1 else Val(value, x)
  {
    forall x ensures Val(value[VarOf(l) := SignOf(l)], x) == if x == l then 1 else if x == -l then -1 else Val(value, x) {
    }
  }

  lemma PlaceLevs(level: seq<nat>, l: int, d: nat)
    requires 1 <= VarOf(l) < |level|
    ensures forall x :: Lev(level[VarOf(l) := d], x) == if x == l || x == -l then d else Lev(level, x)
  {
    forall x ensures Lev(level[VarOf(l) := d], x) == if x == l || x == -l then d else Lev(level, x) {
    }
  }

  lemma PlaceAntes(ante: seq<Ante>, l: int, a: Ante)
    requires 1 <= VarOf(l) < |ante|
    ensures forall x :: AnteOf(ante[VarOf(l) := a], x) == if x == l || x == -l then a else AnteOf(ante, x)
  {
    forall x ensures AnteOf(ante[VarOf(l) := a], x) == if x == l || x == -l then a else AnteOf(ante, x) {
    }
  }

  /** Placing a free literal keeps the trail. */
  lemma PlaceTrail(vc: nat, value: seq<int>, level: seq<nat>, trail: seq<int>, d: nat, l: int)
    requires |value| == |level| == vc + 1
    requires TrailOk(vc, value, level, trail, d) && LitOk(vc, l) && Val(value, l) == 0 && d >= 1
    ensures TrailOk(vc, value[VarOf(l) := SignOf(l)], level[VarOf(l) := d], trail + [l], d)
  {
    PlaceVals(value, l);
    PlaceLevs(level, l, d);
    var value', level', trail' := value[VarOf(l) := SignOf(l)], level[VarOf(l) := d], trail + [l];
    assert trail'[|trail|] == l;
    assert -l !in trail && l !in trail;
    forall x | LitOk(vc, x) && Val(value', x) == 1 ensures x in trail' {
      if x != l {
        assert x in trail;
      }
    }
    hide Val;
    hide Lev;
  }

  /** Antecedent a is the right kind for l as the next literal at level d. */
  ghost predicate AnteFits(vc: nat, store: seq<seq<int>>, imp: map<int, seq<int>>, level: seq<nat>, trail: seq<int>,
                           d: nat, l: int, a: Ante) {
    if trail == [] || Lev(level, trail[|trail| - 1]) < d then a == Decided else Reason(vc, store, imp, l, a, trail)
  }

  lemma PlaceKeepsAntes(vc: nat, store: seq<seq<int>>, imp: map<int, seq<int>>, value: seq<int>, level: seq<nat>, ante: seq<Ante>,
                        trail: seq<int>, d: nat, l: int, a: Ante)
    requires |value| == |level| == |ante| == vc + 1
    requires TrailOk(vc, value, level, trail, d) && LitOk(vc, l) && Val(value, l) == 0 && d >= 1
    requires AntesOk(vc, store, imp, level, ante, trail)
    requires d >= 2 ==> AnteFits(vc, store, imp, level, trail, d, l, a)
    ensures AntesOk(vc, store, imp, level[VarOf(l) := d], ante[VarOf(l) := a], trail + [l])
  {
    PlaceLevs(level, l, d);
    PlaceAntes(ante, l, a);
    var level', ante', trail' := level[VarOf(l) := d], ante[VarOf(l) := a], trail + [l];
    assert trail'[..|trail|] == trail;
    forall i: nat | i < |trail'| ensures AnteOk(vc, store, imp, level', ante', trail', i) {
      if i < |trail| {
        assert AnteOk(vc, store, imp, level, ante, trail, i);
        assert trail[i] != l && trail[i] != -l && (i > 0 ==> trail[i - 1] != l && trail[i - 1] != -l);
        assert trail'[..i] == trail[..i];
      }
    }
  }

  lemma PlaceKeepsWatches(cc: nat, vc: nat, store: seq<seq<int>>, value: seq<int>, level: seq<nat>,
                          todo: set<int>, except: int, litFalse: int, rest: seq<nat>, d: nat, l: int)
    requires |value| == |level| == vc + 1 && LitOk(vc, l) && Val(value, l) == 0
    requires WatchesDone(cc, store, value, level, todo, except, litFalse, rest)
    ensures WatchesDone(cc, store, value[VarOf(l) := SignOf(l)], level[VarOf(l) := d], todo + {l}, except, litFalse, rest)
  {
    PlaceVals(value, l);
    PlaceLevs(level, l, d);
    forall x | Val(value, x) != 0 ensures x != l && x != -l {
    }
    hide Val;
    hide Lev;
  }

  lemma PlaceKeepsBinaries(vc: nat, imp: map<int, seq<int>>, value: seq<int>, level: seq<nat>, todo: set<int>, d: nat, l: int)
    requires |value| == |level| == vc + 1 && LitOk(vc, l) && Val(value, l) == 0
    requires BinariesDone(vc, imp, value, level, todo)
    ensures BinariesDone(vc, imp, value[VarOf(l) := SignOf(l)], level[VarOf(l) := d], todo + {l})
  {
    PlaceVals(value, l);
    PlaceLevs(level, l, d);
    var value', level' := value[VarOf(l) := SignOf(l)], level[VarOf(l) := d];
    forall x, o | LitOk(vc, x) && Val(value', x) == -1 && -x !in todo + {l} && x in imp && o in imp[x]
      ensures Val(value', o) == 1 && Lev(level', o) <= Lev(level', x)
    {
      assert x != -l && x != l;
      assert Val(value, o) == 1 && Lev(level, o) <= Lev(level, x);
      assert o != l && o != -l;
    }
  }

  /** Placing a free literal that is a decision, or has a reason, keeps the invariant and adds it to the work. */
  lemma PlaceKeeps(base: seq<seq<int>>, s: State, todo: set<int>, except: int, litFalse: int, rest: seq<nat>, l: int, a: Ante)
    requires Inv(base, s, todo, except, litFalse, rest) && LitOk(s.vc, l) && Val(s.value, l) == 0 && s.dLevel >= 1
    requires s.dLevel >= 2 ==> AnteFits(s.vc, s.store, s.imp, s.level, s.trail, s.dLevel, l, a)
    requires s.dLevel == 1 ==> Entails(base, [l])
    ensures Inv(base, Place(s, l, a), todo + {l}, except, litFalse, rest)
  {
    var t := Place(s, l, a);
    assert VarsShape(t.vc, t.value, t.level, t.ante);
    PlaceTrail(s.vc, s.value, s.level, s.trail, s.dLevel, l);
    PlaceKeepsAntes(s.vc, s.store, s.imp, s.value, s.level, s.ante, s.trail, s.dLevel, l, a);
    PlaceKeepsWatches(s.cc, s.vc, s.store, s.value, s.level, todo, except, litFalse, rest, s.dLevel, l);
    PlaceKeepsBinaries(s.vc, s.imp, s.value, s.level, todo, s.dLevel, l);
    PlaceKeepsRoot(base, s, l, a);
    PlaceKeepsTodo(s, todo, l, a);
    hide VarsShape;
    hide TrailOk;
    hide AntesOk;
    hide AnteFits;
    hide WatchesDone;
    hide BinariesDone;
    hide RootSound;
    hide TodoOk;
  }

  lemma PlaceKeepsRoot(base: seq<seq<int>>, s: State, l: int, a: Ante)
    requires |s.value| == |s.level| == |s.ante| == s.vc + 1 && TrailOk(s.vc, s.value, s.level, s.trail, s.dLevel)
    requires RootSound(base, s.level, s.trail) && LitOk(s.vc, l) && Val(s.value, l) == 0
    requires s.dLevel <= 1 ==> Entails(base, [l])
    ensures RootSound(base, Place(s, l, a).level, Place(s, l, a).trail)
  {
    PlaceLevs(s.level, l, s.dLevel);
    hide Entails;
  }

  lemma PlaceKeepsTodo(s: State, todo: set<int>, l: int, a: Ante)
    requires |s.value| == |s.level| == |s.ante| == s.vc + 1 && LitOk(s.vc, l) && Val(s.value, l) == 0
    requires TodoOk(s.vc, s.value, s.level, s.dLevel, todo)
    ensures TodoOk(s.vc, Place(s, l, a).value, Place(s, l, a).level, s.dLevel, todo + {l})
  {
    PlaceVals(s.value, l);
    PlaceLevs(s.level, l, s.dLevel);
  }

  // --------------------------------------------------- in-place swaps

  function Swap(c: seq<int>, i: nat, j: nat): seq<int>
    requires i < |c| && j < |c|
  {
    c[i := c[j]][j := c[i]]
  }

  lemma SwapMembers(c: seq<int>, i: nat, j: nat)
    requires i < |c| && j < |c|
    ensures |Swap(c, i, j)| == |c|
    ensures forall x :: x in Swap(c, i, j) <==> x in c
    ensures NoDuplicates(c) ==> NoDuplicates(Swap(c, i, j))
  {
    var d := Swap(c, i, j);
    forall x | x in c ensures x in d {
      var k :| 0 <= k < |c| && c[k] == x;
      assert d[if k == i then j else if k == j then i else k] == x;
    }
  }

  /** Permuting a stored clause that is no antecedent changes nothing but its own watches. */
  lemma PermuteKeepsStore(base: seq<seq<int>>, vc: nat, cc: nat, store: seq<seq<int>>, imp: map<int, seq<int>>,
                          id: nat, d: seq<int>)
    requires StoreShape(vc, cc, store) && StoreSound(base, store, imp) && id < |store|
    requires |d| == |store[id]| && NoDuplicates(d) && forall x :: x in d <==> x in store[id]
    ensures StoreShape(vc, cc, store[id := d]) && StoreSound(base, store[id := d], imp)
  {
    forall k | 0 <= k < |d| ensures LitOk(vc, d[k]) {
      assert d[k] in d;
      var j :| 0 <= j < |store[id]| && store[id][j] == d[k];
    }
    assert Entails(base, d) by {
      forall a: Assignment | Models(a, base) ensures Satisfies(a, d) {
        assert Satisfies(a, store[id]);
      }
    }
    hide Entails;
  }

  lemma PermuteKeepsAntes(vc: nat, store: seq<seq<int>>, imp: map<int, seq<int>>, value: seq<int>, level: seq<nat>,
                          ante: seq<Ante>,
                          trail: seq<int>, id: nat, d: seq<int>)
    requires AntesOk(vc, store, imp, level, ante, trail) && id < |store| && store[id] != [] && Val(value, store[id][0]) != 1
    requires forall i :: 0 <= i < |trail| ==> Val(value, trail[i]) == 1
    ensures AntesOk(vc, store[id := d], imp, level, ante, trail)
  {
    var store' := store[id := d];
    forall i: nat | i < |trail| ensures AnteOk(vc, store', imp, level, ante, trail, i) {
      assert AnteOk(vc, store, imp, level, ante, trail, i);
    }
  }

  /** The list update of a moved watch: append id to list b, then overwrite entry i of list a by its last entry and pop. */
  function Refile(watch: map<int, seq<nat>>, a: int, i: nat, b: int): map<int, seq<nat>>
    requires a in watch && b in watch && a != b && i < |watch[a]|
  {
    watch[b := watch[b] + [watch[a][i]]][a := SwapPop(watch[a], i)]
  }

  function SwapPop(vec: seq<nat>, i: nat): seq<nat>
    requires i < |vec|
  {
    vec[i := vec[|vec| - 1]][..|vec| - 1]
  }

  lemma SwapPopMembers(vec: seq<nat>, i: nat)
    requires i < |vec| && NoDuplicates(vec)
    ensures NoDuplicates(SwapPop(vec, i))
    ensures forall x :: x in SwapPop(vec, i) <==> x in vec && x != vec[i]
    ensures forall x :: x in SwapPop(vec, i)[i..] <==> x in vec[i..] && x != vec[i]
  {
    var s := SwapPop(vec, i);
    var last := |vec| - 1;
    forall x | x in vec && x != vec[i] ensures x in s {
      var j :| 0 <= j < |vec| && vec[j] == x;
      assert s[if j == last then i else j] == x;
    }
    forall x | x in vec[i..] && x != vec[i] ensures x in s[i..] {
      var j :| 0 <= j < |vec| - i && vec[i..][j] == x;
      assert s[i..][if j + i == last then 0 else j] == x;
    }
    forall x | x in s[i..] ensures x in vec[i..] && x != vec[i] {
      var j :| 0 <= j < |s| - i && s[i..][j] == x;
      assert x == vec[i..][if j == 0 then last - i else j];
    }
  }

  /** Moving the watch of clause id from position w to position k, and its reference from one list to the other. */
  lemma MoveKeepsFiling(cc: nat, store: seq<seq<int>>, watch: map<int, seq<nat>>, id: nat, w: nat, k: nat, i: nat)
    requires Filed(cc, store, watch) && Watched(cc, store, id) && NoDuplicates(store[id])
    requires w <= 1 && 2 <= k < |store[id]| && store[id][k] in watch && store[id][w] in watch
    requires i < |watch[store[id][w]]| && watch[store[id][w]][i] == id
    ensures store[id][k] != store[id][w]
    ensures Filed(cc, store[id := Swap(store[id], w, k)], Refile(watch, store[id][w], i, store[id][k]))
  {
    var c := store[id];
    var store', watch' := store[id := Swap(c, w, k)], Refile(watch, c[w], i, c[k]);
    SwapPopMembers(watch[c[w]], i);
    assert id !in watch[c[k]];
    assert watch'[c[k]] == watch[c[k]] + [id];
    forall x: nat, v | Watched(cc, store', x) && 0 <= v <= 1
      ensures store'[x][v] in watch' && x in watch'[store'[x][v]]
    {
      assert Watched(cc, store, x);
      if x == id && v == w {
        assert store'[x][v] == c[k];
      } else {
        assert store'[x][v] == store[x][v] && x in watch[store[x][v]];
      }
    }
    forall l, x: nat | l in watch' && x in watch'[l]
      ensures Watched(cc, store', x) && (store'[x][0] == l || store'[x][1] == l)
    {
      if x == id {
        assert l == c[k] || (id in watch[l] && l != c[w]);
      } else {
        assert x in watch[l];
      }
    }
  }

  lemma MoveKeepsWatches(cc: nat, store: seq<seq<int>>, value: seq<int>, level: seq<nat>,
                         todo: set<int>, except: int, litFalse: int, rest: seq<nat>, rest': seq<nat>, id: nat, w: nat, k: nat)
    requires WatchesDone(cc, store, value, level, todo, except, litFalse, rest)
    requires forall x :: x in rest && x != id ==> x in rest'
    requires Watched(cc, store, id) && NoDuplicates(store[id]) && w <= 1 && 2 <= k < |store[id]|
    requires store[id][w] == litFalse && Val(value, litFalse) == -1 && Val(value, store[id][k]) != -1
    ensures WatchesDone(cc, store[id := Swap(store[id], w, k)], value, level, todo, except, litFalse, rest')
  {
    var store' := store[id := Swap(store[id], w, k)];
    forall x: nat, v | Watched(cc, store', x) && 0 <= v <= 1 && x != except
        && Val(value, store'[x][v]) == -1 && -store'[x][v] !in todo && !(store'[x][v] == litFalse && x in rest')
      ensures Val(value, store'[x][1 - v]) == 1 && Lev(level, store'[x][1 - v]) <= Lev(level, store'[x][v])
    {
      assert Watched(cc, store, x);
      if x != id {
        assert store'[x] == store[x];
      }
    }
  }

  /** Moving the false watch of clause id to a literal that is not false settles the reference. */
  lemma MovedVisit(base: seq<seq<int>>, s: State, todo: set<int>, except: int, litFalse: int, id: nat, w: nat, k: nat, i: nat)
    requires litFalse in s.watch && i < |s.watch[litFalse]| && s.watch[litFalse][i] == id
    requires Inv(base, s, todo, except, litFalse, s.watch[litFalse][i..])
    requires Watched(s.cc, s.store, id) && w <= 1 && 2 <= k < |s.store[id]|
    requires s.store[id][w] == litFalse && Val(s.value, litFalse) == -1 && Val(s.value, s.store[id][1 - w]) != 1
    requires Val(s.value, s.store[id][k]) != -1
    ensures s.store[id][k] in s.watch && s.store[id][k] != litFalse
    ensures var t := s.(store := s.store[id := Swap(s.store[id], w, k)], watch := Refile(s.watch, litFalse, i, s.store[id][k]));
      Inv(base, t, todo, except, litFalse, t.watch[litFalse][i..])
  {
    hide VarsShape;
    hide StoreShape;
    hide ListShape;
    hide TrailOk;
    hide AntesOk;
    hide Filed;
    hide WatchesDone;
    hide BinariesDone;
    hide StoreSound;
    hide RootSound;
    hide TodoOk;
    var c := s.store[id];
    StoredClause(s.vc, s.cc, s.store, id);
    ListsHere(s.vc, s.imp, s.watch, c[k]);
    ListsUnique(s.cc, s.store, s.watch, litFalse);
    TrailFacts(s.vc, s.value, s.level, s.trail, s.dLevel);
    SwapMembers(c, w, k);
    var t := s.(store := s.store[id := Swap(c, w, k)], watch := Refile(s.watch, litFalse, i, c[k]));
    PermuteKeepsStore(base, s.vc, s.cc, s.store, s.imp, id, Swap(c, w, k));
    PermuteKeepsAntes(s.vc, s.store, s.imp, s.value, s.level, s.ante, s.trail, id, Swap(c, w, k));
    MoveKeepsFiling(s.cc, s.store, s.watch, id, w, k, i);
    SwapPopMembers(s.watch[litFalse], i);
    MoveKeepsWatches(s.cc, s.store, s.value, s.level, todo, except, litFalse, s.watch[litFalse][i..], t.watch[litFalse][i..], id, w, k);
    RefileShape(s.vc, s.imp, s.watch, litFalse, i, c[k]);
  }

  lemma StoredClause(vc: nat, cc: nat, store: seq<seq<int>>, id: nat)
    requires StoreShape(vc, cc, store) && id < |store|
    ensures NoDuplicates(store[id]) && forall k :: 0 <= k < |store[id]| ==> LitOk(vc, store[id][k])
  {
    assert ClauseShape(vc, store[id]);
  }

  lemma ListsHere(vc: nat, imp: map<int, seq<int>>, watch: map<int, seq<nat>>, l: int)
    requires ListShape(vc, imp, watch) && LitOk(vc, l)
    ensures l in imp && l in watch
  {
  }

  lemma ListsUnique(cc: nat, store: seq<seq<int>>, watch: map<int, seq<nat>>, l: int)
    requires Filed(cc, store, watch) && l in watch
    ensures NoDuplicates(watch[l])
  {
  }

  lemma RefileShape(vc: nat, imp: map<int, seq<int>>, watch: map<int, seq<nat>>, a: int, i: nat, b: int)
    requires ListShape(vc, imp, watch) && a in watch && b in watch && a != b && i < |watch[a]|
    ensures ListShape(vc, imp, Refile(watch, a, i, b))
  {
  }

  lemma TrailFacts(vc: nat, value: seq<int>, level: seq<nat>, trail: seq<int>, d: nat)
    requires TrailOk(vc, value, level, trail, d)
    ensures forall i :: 0 <= i < |trail| ==> LitOk(vc, trail[i]) && Val(value, trail[i]) == 1
    ensures forall y :: LitOk(vc, y) && Val(value, y) == 1 ==> y in trail
  {
  }

  lemma RestShrinks(rest: seq<nat>)
    requires rest != []
    ensures forall x :: x in rest && x != rest[0] ==> x in rest[1..]
  {
    assert rest == [rest[0]] + rest[1..];
  }

  lemma PartneredWatches(cc: nat, store: seq<seq<int>>, value: seq<int>, level: seq<nat>,
                         todo: set<int>, except: int, litFalse: int, rest: seq<nat>, w: nat)
    requires WatchesDone(cc, store, value, level, todo, except, litFalse, rest) && rest != [] && w <= 1
    requires Watched(cc, store, rest[0]) && NoDuplicates(store[rest[0]]) && store[rest[0]][w] == litFalse
    requires Val(value, store[rest[0]][1 - w]) == 1 && Lev(level, store[rest[0]][1 - w]) <= Lev(level, litFalse)
    ensures WatchesDone(cc, store, value, level, todo, except, litFalse, rest[1..])
  {
    RestShrinks(rest);
    forall id: nat, v | Watched(cc, store, id) && 0 <= v <= 1 && id != except
        && Val(value, store[id][v]) == -1 && -store[id][v] !in todo && !(store[id][v] == litFalse && id in rest[1..])
      ensures Val(value, store[id][1 - v]) == 1 && Lev(level, store[id][1 - v]) <= Lev(level, store[id][v])
    {
      if id == rest[0] && store[id][v] == litFalse {
        assert v == w;
      }
    }
  }

  /** A true partner settles the reference: no literal is set above the current level. */
  lemma PartneredVisit(base: seq<seq<int>>, s: State, todo: set<int>, except: int, litFalse: int, rest: seq<nat>, w: nat)
    requires Inv(base, s, todo, except, litFalse, rest) && rest != [] && w <= 1
    requires Watched(s.cc, s.store, rest[0]) && s.store[rest[0]][w] == litFalse
    requires Val(s.value, s.store[rest[0]][1 - w]) == 1 && Lev(s.level, litFalse) == s.dLevel
    ensures Inv(base, s, todo, except, litFalse, rest[1..])
  {
    var c := s.store[rest[0]];
    assert ClauseShape(s.vc, c);
    LevelBound(s.vc, s.value, s.level, s.trail, s.dLevel, c[1 - w]);
    hide TrailOk;
    hide AntesOk;
    hide Filed;
    hide StoreShape;
    hide StoreSound;
    hide RootSound;
    hide WatchesDone;
    hide BinariesDone;
    PartneredWatches(s.cc, s.store, s.value, s.level, todo, except, litFalse, rest, w);
  }

  lemma LevelBound(vc: nat, value: seq<int>, level: seq<nat>, trail: seq<int>, d: nat, l: int)
    requires TrailOk(vc, value, level, trail, d) && LitOk(vc, l) && Val(value, l) == 1
    ensures 1 <= Lev(level, l) <= d
  {
    assert l in trail;
  }

  /** Exchanging the two watches of a clause that is no antecedent keeps the invariant. */
  lemma FrontSwap(base: seq<seq<int>>, s: State, todo: set<int>, except: int, litFalse: int, rest: seq<nat>, id: nat)
    requires Inv(base, s, todo, except, litFalse, rest) && Watched(s.cc, s.store, id) && Val(s.value, s.store[id][0]) != 1
    ensures Inv(base, s.(store := s.store[id := Swap(s.store[id], 0, 1)]), todo, except, litFalse, rest)
  {
    var c := s.store[id];
    assert ClauseShape(s.vc, c);
    SwapMembers(c, 0, 1);
    PermuteKeepsStore(base, s.vc, s.cc, s.store, s.imp, id, Swap(c, 0, 1));
    assert forall j :: 0 <= j < |s.trail| ==> Val(s.value, s.trail[j]) == 1;
    PermuteKeepsAntes(s.vc, s.store, s.imp, s.value, s.level, s.ante, s.trail, id, Swap(c, 0, 1));
    FrontSwapWatches(s.cc, s.store, s.value, s.level, todo, except, litFalse, rest, id);
    FrontSwapFiled(s.cc, s.store, s.watch, id);
    hide ClauseShape;
    hide Filed;
    hide TrailOk;
    hide AntesOk;
    hide WatchesDone;
    hide BinariesDone;
    hide StoreSound;
    hide StoreShape;
    hide ListShape;
    hide VarsShape;
    hide RootSound;
    hide TodoOk;
  }

  lemma FrontSwapWatches(cc: nat, store: seq<seq<int>>, value: seq<int>, level: seq<nat>,
                       todo: set<int>, except: int, litFalse: int, rest: seq<nat>, id: nat)
    requires WatchesDone(cc, store, value, level, todo, except, litFalse, rest) && Watched(cc, store, id)
    ensures WatchesDone(cc, store[id := Swap(store[id], 0, 1)], value, level, todo, except, litFalse, rest)
  {
    var store' := store[id := Swap(store[id], 0, 1)];
    forall x: nat, v | Watched(cc, store', x) && 0 <= v <= 1 && x != except
        && Val(value, store'[x][v]) == -1 && -store'[x][v] !in todo && !(store'[x][v] == litFalse && x in rest)
      ensures Val(value, store'[x][1 - v]) == 1 && Lev(level, store'[x][1 - v]) <= Lev(level, store'[x][v])
    {
      assert Watched(cc, store, x);
      var u := if x == id then 1 - v else v;
      assert store[x][u] == store'[x][v] && store[x][1 - u] == store'[x][1 - v];
    }
  }

  lemma FrontSwapFiled(cc: nat, store: seq<seq<int>>, watch: map<int, seq<nat>>, id: nat)
    requires Filed(cc, store, watch) && Watched(cc, store, id)
    ensures Filed(cc, store[id := Swap(store[id], 0, 1)], watch)
  {
    var store' := store[id := Swap(store[id], 0, 1)];
    forall x: nat, v | Watched(cc, store', x) && 0 <= v <= 1 ensures store'[x][v] in watch && x in watch[store'[x][v]] {
      assert Watched(cc, store, x);
      var u := if x == id then 1 - v else v;
      assert store[x][u] == store'[x][v] && x in watch[store[x][u]];
    }
    forall l, x: nat | l in watch && x in watch[l] ensures Watched(cc, store', x) && (store'[x][0] == l || store'[x][1] == l) {
      assert Watched(cc, store, x);
    }
  }

  /** The first literal of a clause whose other literals are all false is implied by it. */
  lemma ImpliedAtFront(base: seq<seq<int>>, s: State, todo: set<int>, except: int, litFalse: int, rest: seq<nat>)
    requires Inv(base, s, todo, except, litFalse, rest) && rest != [] && s.dLevel >= 1
    requires Watched(s.cc, s.store, rest[0]) && s.store[rest[0]][1] == litFalse && Lev(s.level, litFalse) == s.dLevel
    requires LitOk(s.vc, s.store[rest[0]][0]) && LitOk(s.vc, litFalse) && |s.value| == |s.level| == |s.ante| == s.vc + 1
    requires Val(s.value, s.store[rest[0]][0]) == 0
    requires forall k :: 1 <= k < |s.store[rest[0]]| ==> Val(s.value, s.store[rest[0]][k]) == -1
    ensures Inv(base, Place(s, s.store[rest[0]][0], Stored(rest[0])), todo + {s.store[rest[0]][0]}, except, litFalse, rest[1..])
  {
    hide Inv;
    hide AnteFits;
    var x := s.store[rest[0]][0];
    ImpliedFits(base, s, todo, except, litFalse, rest, rest[0], x);
    PlaceKeeps(base, s, todo, except, litFalse, rest, x, Stored(rest[0]));
    PlaceVal(s.value, x, x);
    PlaceLevs(s.level, x, s.dLevel);
    PartneredVisit(base, Place(s, x, Stored(rest[0])), todo + {x}, except, litFalse, rest, 1);
  }

  /** All literals of a clause but the partner of its false watch are false: the partner, moved to the front if need be,
      is implied by the clause. */
  lemma ImpliedVisit(base: seq<seq<int>>, s: State, todo: set<int>, except: int, litFalse: int, rest: seq<nat>, w: nat)
    requires Inv(base, s, todo, except, litFalse, rest) && rest != [] && w <= 1 && s.dLevel >= 1
    requires Watched(s.cc, s.store, rest[0]) && s.store[rest[0]][w] == litFalse && Val(s.value, litFalse) == -1 && Lev(s.level, litFalse) == s.dLevel
    requires Val(s.value, s.store[rest[0]][1 - w]) == 0
    requires forall k :: 2 <= k < |s.store[rest[0]]| ==> Val(s.value, s.store[rest[0]][k]) == -1
    ensures LitOk(s.vc, s.store[rest[0]][1 - w]) && |s.value| == |s.level| == |s.ante| == s.vc + 1
    ensures var c := s.store[rest[0]];
      Inv(base, Place(s.(store := s.store[rest[0] := if w == 0 then Swap(c, 0, 1) else c]), c[1 - w], Stored(rest[0])),
          todo + {c[1 - w]}, except, litFalse, rest[1..])
  {
    var c := s.store[rest[0]];
    assert ClauseShape(s.vc, c);
    if w == 0 {
      FrontSwap(base, s, todo, except, litFalse, rest, rest[0]);
      ImpliedAtFront(base, s.(store := s.store[rest[0] := Swap(c, 0, 1)]), todo, except, litFalse, rest);
    } else {
      assert s.store[rest[0] := c] == s.store;
      ImpliedAtFront(base, s, todo, except, litFalse, rest);
    }
    hide Inv;
    hide ClauseShape;
  }

  /** A stored clause whose literals after the first are false is a reason for the first one. */
  lemma ImpliedFits(base: seq<seq<int>>, s: State, todo: set<int>, except: int, litFalse: int, rest: seq<nat>, id: nat, x: int)
    requires Inv(base, s, todo, except, litFalse, rest) && Watched(s.cc, s.store, id) && s.store[id][0] == x
    requires forall k :: 1 <= k < |s.store[id]| ==> Val(s.value, s.store[id][k]) == -1
    requires exists k :: 1 <= k < |s.store[id]| && Lev(s.level, s.store[id][k]) == s.dLevel
    ensures s.dLevel >= 2 ==> AnteFits(s.vc, s.store, s.imp, s.level, s.trail, s.dLevel, x, Stored(id))
    ensures s.dLevel == 1 ==> Entails(base, [x])
  {
    hide VarsShape;
    hide StoreShape;
    hide ListShape;
    hide TrailOk;
    hide AntesOk;
    hide Filed;
    hide WatchesDone;
    hide BinariesDone;
    hide StoreSound;
    hide RootSound;
    hide TodoOk;
    hide Entails;
    var c := s.store[id];
    StoredClause(s.vc, s.cc, s.store, id);
    TrailFacts(s.vc, s.value, s.level, s.trail, s.dLevel);
    forall k | 1 <= k < |c| ensures -c[k] in s.trail {
      assert Val(s.value, -c[k]) == 1;
    }
    LevelsAtRoot(s.vc, s.value, s.level, s.trail, s.dLevel);
    TopOfLevel(s, c);
    if s.dLevel == 1 {
      forall k | 1 <= k < |c| ensures Entails(base, [-c[k]]) {
        RootFalse(base, s, c[k]);
      }
      StoredEntailed(base, s.store, s.imp, id);
      UnitConsequence(base, c, x);
    }
  }

  lemma LevelsAtRoot(vc: nat, value: seq<int>, level: seq<nat>, trail: seq<int>, d: nat)
    requires TrailOk(vc, value, level, trail, d)
    ensures forall x :: -x in trail ==> 1 <= Lev(level, x) <= d
  {
    forall x | -x in trail ensures 1 <= Lev(level, x) <= d {
      assert Lev(level, -x) == Lev(level, x);
    }
  }

  /** At decision level 1 a false literal is refuted by the base formula. */
  lemma RootFalse(base: seq<seq<int>>, s: State, x: int)
    requires TrailOk(s.vc, s.value, s.level, s.trail, s.dLevel) && RootSound(base, s.level, s.trail)
    requires -x in s.trail && Lev(s.level, x) <= 1
    ensures Entails(base, [-x])
  {
    hide Entails;
    var i :| 0 <= i < |s.trail| && s.trail[i] == -x;
    assert Lev(s.level, -x) == Lev(s.level, x);
  }

  lemma StoredEntailed(base: seq<seq<int>>, store: seq<seq<int>>, imp: map<int, seq<int>>, id: nat)
    requires StoreSound(base, store, imp) && id < |store|
    ensures Entails(base, store[id])
  {
  }

  /** If a false literal of c was set at the current level then the last literal on the trail was. */
  lemma TopOfLevel(s: State, c: seq<int>)
    requires TrailOk(s.vc, s.value, s.level, s.trail, s.dLevel) && s.dLevel >= 1
    requires exists k :: 0 <= k < |c| && Lev(s.level, c[k]) == s.dLevel && -c[k] in s.trail
    ensures s.trail != [] && Lev(s.level, s.trail[|s.trail| - 1]) == s.dLevel
  {
    var k :| 0 <= k < |c| && Lev(s.level, c[k]) == s.dLevel && -c[k] in s.trail;
    var i :| 0 <= i < |s.trail| && s.trail[i] == -c[k];
    assert Lev(s.level, s.trail[i]) == s.dLevel;
    assert Lev(s.level, s.trail[i]) <= Lev(s.level, s.trail[|s.trail| - 1]);
  }

  lemma UnitConsequence(base: seq<seq<int>>, c: seq<int>, x: int)
    requires Entails(base, c) && forall k :: 0 <= k < |c| && c[k] != x ==> c[k] != 0 && Entails(base, [-c[k]])
    ensures Entails(base, [x])
  {
    forall a: Assignment | Models(a, base) ensures Satisfies(a, [x]) {
      assert Satisfies(a, c);
      var y :| y in c && Holds(a, y);
      if y != x {
        assert Satisfies(a, [-y]);
      }
      assert x in [x];
    }
  }

  // --------------------------------------------------- processing one literal

  /** Trail literals above level b. */
  ghost function Above(level: seq<nat>, trail: seq<int>, b: nat): set<int> {
    set l | l in trail && Lev(level, l) > b
  }

  lemma BinaryListDone(vc: nat, imp: map<int, seq<int>>, value: seq<int>, level: seq<nat>, trail: seq<int>, d: nat,
                       todo: set<int>, p: int)
    requires BinariesDone(vc, imp, value, level, todo) && TrailOk(vc, value, level, trail, d)
    requires LitOk(vc, p) && Lev(level, p) == d && -p in imp
    requires forall o :: o in imp[-p] ==> LitOk(vc, o) && Val(value, o) == 1
    ensures BinariesDone(vc, imp, value, level, todo - {p})
  {
    forall l, o | LitOk(vc, l) && Val(value, l) == -1 && -l !in todo - {p} && l in imp && o in imp[l]
      ensures Val(value, o) == 1 && Lev(level, o) <= Lev(level, l)
    {
      if -l == p {
        LevelBound(vc, value, level, trail, d, o);
      }
    }
  }

  lemma WatchListOpens(cc: nat, store: seq<seq<int>>, watch: map<int, seq<nat>>, value: seq<int>, level: seq<nat>,
                       todo: set<int>, p: int)
    requires WatchesDone(cc, store, value, level, todo, -1, 0, []) && Filed(cc, store, watch) && -p in watch
    ensures WatchesDone(cc, store, value, level, todo - {p}, -1, -p, watch[-p])
  {
    forall id: nat, w | Watched(cc, store, id) && 0 <= w <= 1 && Val(value, store[id][w]) == -1
        && -store[id][w] !in todo - {p} && !(store[id][w] == -p && id in watch[-p])
      ensures Val(value, store[id][1 - w]) == 1 && Lev(level, store[id][1 - w]) <= Lev(level, store[id][w])
    {
      assert store[id][w] in watch && id in watch[store[id][w]];
    }
  }

  /** Taking literal p off the work list once its binary clauses are done leaves its watch list to be visited. */
  lemma BinaryStageDone(base: seq<seq<int>>, s: State, todo: set<int>, p: int)
    requires Inv(base, s, todo, -1, 0, []) && p in todo && LitOk(s.vc, p) && Lev(s.level, p) == s.dLevel
    requires -p in s.imp && -p in s.watch && forall o :: o in s.imp[-p] ==> LitOk(s.vc, o) && Val(s.value, o) == 1
    ensures Inv(base, s, todo - {p}, -1, -p, s.watch[-p])
  {
    hide VarsShape;
    hide StoreShape;
    hide ListShape;
    hide TrailOk;
    hide AntesOk;
    hide Filed;
    hide WatchesDone;
    hide BinariesDone;
    hide StoreSound;
    hide RootSound;
    BinaryListDone(s.vc, s.imp, s.value, s.level, s.trail, s.dLevel, todo, p);
    WatchListOpens(s.cc, s.store, s.watch, s.value, s.level, todo, p);
  }

  lemma WatchStageDone(base: seq<seq<int>>, s: State, todo: set<int>, litFalse: int)
    requires Inv(base, s, todo, -1, litFalse, [])
    ensures Inv(base, s, todo, -1, 0, [])
  {
  }

  // ----------------------------------------------------- undoing assignments

  /** The invariant while levels above b are being undone. */
  ghost predicate InvBelow(base: seq<seq<int>>, s: State, b: nat, except: int) {
    && VarsShape(s.vc, s.value, s.level, s.ante)
    && StoreShape(s.vc, s.cc, s.store)
    && ListShape(s.vc, s.imp, s.watch)
    && TrailOk(s.vc, s.value, s.level, s.trail, s.dLevel)
    && AntesOk(s.vc, s.store, s.imp, s.level, s.ante, s.trail)
    && Filed(s.cc, s.store, s.watch)
    && WatchesDone(s.cc, s.store, s.value, s.level, Above(s.level, s.trail, b), except, 0, [])
    && BinariesDone(s.vc, s.imp, s.value, s.level, Above(s.level, s.trail, b))
    && StoreSound(base, s.store, s.imp)
    && RootSound(base, s.level, s.trail)
  }

  lemma WiderTodo(vc: nat, cc: nat, store: seq<seq<int>>, imp: map<int, seq<int>>, value: seq<int>, level: seq<nat>,
                  todo: set<int>, todo': set<int>, except: int, litFalse: int, rest: seq<nat>)
    requires WatchesDone(cc, store, value, level, todo, except, litFalse, rest) && BinariesDone(vc, imp, value, level, todo)
    requires todo <= todo' && (rest == [] || -litFalse in todo')
    ensures WatchesDone(cc, store, value, level, todo', except, 0, []) && BinariesDone(vc, imp, value, level, todo')
  {
  }

  lemma TodoAbove(vc: nat, value: seq<int>, level: seq<nat>, trail: seq<int>, d: nat, todo: set<int>, b: nat)
    requires TrailOk(vc, value, level, trail, d) && TodoOk(vc, value, level, d, todo) && d > b
    ensures todo <= Above(level, trail, b)
  {
    forall l | l in todo ensures l in Above(level, trail, b) {
      assert l in trail;
    }
  }

  lemma FalseAbove(vc: nat, value: seq<int>, level: seq<nat>, trail: seq<int>, d: nat, l: int, b: nat)
    requires TrailOk(vc, value, level, trail, d) && LitOk(vc, l) && Val(value, l) == -1 && Lev(level, l) > b
    ensures -l in Above(level, trail, b)
  {
    assert Val(value, -l) == 1 && -l in trail;
  }

  /** Interrupted propagation: everything below the current level is still done. */
  lemma Interrupted(base: seq<seq<int>>, s: State, todo: set<int>, litFalse: int, rest: seq<nat>, b: nat)
    requires Inv(base, s, todo, -1, litFalse, rest) && s.dLevel > b
    requires rest != [] ==> LitOk(s.vc, litFalse) && Val(s.value, litFalse) == -1 && Lev(s.level, litFalse) == s.dLevel
    ensures InvBelow(base, s, b, -1)
  {
    hide VarsShape;
    hide StoreShape;
    hide ListShape;
    hide TrailOk;
    hide AntesOk;
    hide Filed;
    hide WatchesDone;
    hide BinariesDone;
    hide StoreSound;
    hide RootSound;
    TodoAbove(s.vc, s.value, s.level, s.trail, s.dLevel, todo, b);
    if rest != [] {
      FalseAbove(s.vc, s.value, s.level, s.trail, s.dLevel, litFalse, b);
    }
    WiderTodo(s.vc, s.cc, s.store, s.imp, s.value, s.level, todo, Above(s.level, s.trail, b), -1, litFalse, rest);
  }

  lemma LowerBound(base: seq<seq<int>>, s: State, b: nat, b': nat, except: int)
    requires InvBelow(base, s, b, except) && b' <= b
    ensures InvBelow(base, s, b', except)
  {
    hide VarsShape;
    hide StoreShape;
    hide ListShape;
    hide TrailOk;
    hide AntesOk;
    hide Filed;
    hide WatchesDone;
    hide BinariesDone;
    hide StoreSound;
    hide RootSound;
    assert Above(s.level, s.trail, b) <= Above(s.level, s.trail, b');
    WiderTodo(s.vc, s.cc, s.store, s.imp, s.value, s.level, Above(s.level, s.trail, b), Above(s.level, s.trail, b'), except, 0, []);
  }

  function Popped(s: State): State
    requires s.trail != [] && VarOf(s.trail[|s.trail| - 1]) < |s.value|
  {
    s.(trail := s.trail[..|s.trail| - 1], value := s.value[VarOf(s.trail[|s.trail| - 1]) := 0])
  }

  lemma FreeVals(value: seq<int>, l: int)
    requires VarOf(l) < |value|
    ensures forall x :: Val(value[VarOf(l) := 0], x) == if x == l || x == -l then 0 else Val(value, x)
  {
    forall x ensures Val(value[VarOf(l) := 0], x) == if x == l || x == -l then 0 else Val(value, x) {
    }
  }

  lemma PopTrail(vc: nat, value: seq<int>, level: seq<nat>, trail: seq<int>, d: nat)
    requires TrailOk(vc, value, level, trail, d) && trail != [] && |value| == vc + 1
    ensures VarOf(trail[|trail| - 1]) < |value|
    ensures TrailOk(vc, value[VarOf(trail[|trail| - 1]) := 0], level, trail[..|trail| - 1], d)
  {
    var n := |trail| - 1;
    var l := trail[n];
    FreeVals(value, l);
    forall i | 0 <= i < n ensures trail[i] != l && trail[i] != -l {
      assert Val(value, trail[i]) == 1 && Val(value, -l) == -1;
    }
    forall x | LitOk(vc, x) && Val(value[VarOf(l) := 0], x) == 1 ensures x in trail[..n] {
      assert x in trail;
      var i :| 0 <= i < |trail| && trail[i] == x;
      assert trail[..n][i] == x;
    }
    hide Val;
    hide Lev;
  }

  lemma PopAntes(vc: nat, store: seq<seq<int>>, imp: map<int, seq<int>>, level: seq<nat>, ante: seq<Ante>, trail: seq<int>)
    requires AntesOk(vc, store, imp, level, ante, trail) && trail != []
    ensures AntesOk(vc, store, imp, level, ante, trail[..|trail| - 1])
  {
    var t := trail[..|trail| - 1];
    forall i: nat | i < |t| ensures AnteOk(vc, store, imp, level, ante, t, i) {
      assert AnteOk(vc, store, imp, level, ante, trail, i);
      assert t[..i] == trail[..i];
    }
  }

  lemma PopAbove(vc: nat, value: seq<int>, level: seq<nat>, trail: seq<int>, b: nat, l: int, x: int)
    requires 1 <= VarOf(l) < |value| && |value| == |level| == vc + 1 && trail != [] && trail[|trail| - 1] == l
    requires Lev(level, l) > b && Val(value, l) == 1 && forall y :: LitOk(vc, y) && Val(value, y) == 1 ==> y in trail
    requires LitOk(vc, x) && Val(value[VarOf(l) := 0], x) == -1 && -x !in Above(level, trail[..|trail| - 1], b)
    ensures Val(value, x) == -1 && -x !in Above(level, trail, b) && Lev(level, x) <= b
  {
    FreeVals(value, l);
    assert Val(value, -x) == 1 && -x in trail;
    var i :| 0 <= i < |trail| && trail[i] == -x;
    assert i < |trail| - 1 && trail[..|trail| - 1][i] == -x;
    assert Lev(level, -x) == Lev(level, x);
  }

  lemma PopWatches(vc: nat, cc: nat, store: seq<seq<int>>, value: seq<int>, level: seq<nat>, trail: seq<int>, b: nat,
                   except: int, l: int)
    requires StoreShape(vc, cc, store) && 1 <= VarOf(l) < |value| && |value| == |level| == vc + 1 && trail != [] && trail[|trail| - 1] == l
    requires WatchesDone(cc, store, value, level, Above(level, trail, b), except, 0, [])
    requires Lev(level, l) > b && Val(value, l) == 1 && forall y :: LitOk(vc, y) && Val(value, y) == 1 ==> y in trail
    ensures WatchesDone(cc, store, value[VarOf(l) := 0], level, Above(level, trail[..|trail| - 1], b), except, 0, [])
  {
    hide Above;
    forall id: nat, w | Watched(cc, store, id) && 0 <= w <= 1 && id != except
        && Val(value[VarOf(l) := 0], store[id][w]) == -1 && -store[id][w] !in Above(level, trail[..|trail| - 1], b)
      ensures Val(value[VarOf(l) := 0], store[id][1 - w]) == 1 && Lev(level, store[id][1 - w]) <= Lev(level, store[id][w])
    {
      assert ClauseShape(vc, store[id]);
      PopAbove(vc, value, level, trail, b, l, store[id][w]);
    }
  }

  lemma PopBinaries(vc: nat, imp: map<int, seq<int>>, value: seq<int>, level: seq<nat>, trail: seq<int>, b: nat, l: int)
    requires 1 <= VarOf(l) < |value| && |value| == |level| == vc + 1 && trail != [] && trail[|trail| - 1] == l
    requires BinariesDone(vc, imp, value, level, Above(level, trail, b))
    requires Lev(level, l) > b && Val(value, l) == 1 && forall y :: LitOk(vc, y) && Val(value, y) == 1 ==> y in trail
    ensures BinariesDone(vc, imp, value[VarOf(l) := 0], level, Above(level, trail[..|trail| - 1], b))
  {
    hide Above;
    var value', above' := value[VarOf(l) := 0], Above(level, trail[..|trail| - 1], b);
    forall x, o | LitOk(vc, x) && Val(value', x) == -1 && -x !in above' && x in imp && o in imp[x]
      ensures Val(value', o) == 1 && Lev(level, o) <= Lev(level, x)
    {
      PopAbove(vc, value, level, trail, b, l, x);
      FreeVals(value, l);
      assert Lev(level, -l) == Lev(level, l);
      assert Val(value, o) == 1 && Lev(level, o) <= Lev(level, x);
    }
  }

  lemma PopRest(base: seq<seq<int>>, vc: nat, value: seq<int>, level: seq<nat>, ante: seq<Ante>, trail: seq<int>, l: int)
    requires VarsShape(vc, value, level, ante) && RootSound(base, level, trail) && trail != [] && LitOk(vc, l)
    ensures |value| == |level| == |ante| == vc + 1
    ensures VarsShape(vc, value[VarOf(l) := 0], level, ante) && RootSound(base, level, trail[..|trail| - 1])
  {
    hide Entails;
  }

  /** Popping a literal set above level b keeps the invariant of the levels up to b. */
  lemma PopKeeps(base: seq<seq<int>>, s: State, b: nat, except: int)
    requires InvBelow(base, s, b, except) && s.trail != [] && Lev(s.level, s.trail[|s.trail| - 1]) > b
    ensures VarOf(s.trail[|s.trail| - 1]) < |s.value| && InvBelow(base, Popped(s), b, except)
  {
    hide VarsShape;
    hide StoreShape;
    hide ListShape;
    hide TrailOk;
    hide AntesOk;
    hide Filed;
    hide WatchesDone;
    hide BinariesDone;
    hide StoreSound;
    hide RootSound;
    var l := s.trail[|s.trail| - 1];
    TrailFacts(s.vc, s.value, s.level, s.trail, s.dLevel);
    PopRest(base, s.vc, s.value, s.level, s.ante, s.trail, l);
    PopTrail(s.vc, s.value, s.level, s.trail, s.dLevel);
    PopAntes(s.vc, s.store, s.imp, s.level, s.ante, s.trail);
    PopWatches(s.vc, s.cc, s.store, s.value, s.level, s.trail, b, except, l);
    PopBinaries(s.vc, s.imp, s.value, s.level, s.trail, b, l);
  }

  /** When no literal above b is left the state is a finished one at decision level b. */
  lemma Unwound(base: seq<seq<int>>, s: State, b: nat, except: int)
    requires InvBelow(base, s, b, except) && (s.trail == [] || Lev(s.level, s.trail[|s.trail| - 1]) <= b)
    ensures Inv(base, s.(dLevel := b), {}, except, 0, [])
  {
    forall i | 0 <= i < |s.trail| ensures Lev(s.level, s.trail[i]) <= b {
      assert Lev(s.level, s.trail[i]) <= Lev(s.level, s.trail[|s.trail| - 1]);
    }
    assert Above(s.level, s.trail, b) == {};
    assert TrailOk(s.vc, s.value, s.level, s.trail, b);
    hide TrailOk;
    hide AntesOk;
    hide StoreShape;
    hide Filed;
    hide StoreSound;
    hide RootSound;
    hide WatchesDone;
    hide BinariesDone;
  }

  // ------------------------------------------------------- conflict analysis

  /** Every model of the base formula makes a literal of tmp or cur true. */
  ghost predicate EntailsUnion(base: seq<seq<int>>, tmp: seq<int>, cur: set<int>) {
    forall a: Assignment :: Models(a, base) ==> exists x :: (x in tmp || x in cur) && Holds(a, x)
  }

  predicate Marked(mark: seq<bool>, l: int) {
    VarOf(l) < |mark| && mark[VarOf(l)]
  }

  /** The marked variables are exactly those of tmp and cur, which hold false literals of the trail:
      tmp those set between the root level and the current level d, cur those of level d. */
  ghost predicate Analysis(vc: nat, level: seq<nat>, trail: seq<int>, d: nat, mark: seq<bool>, tmp: seq<int>, cur: set<int>) {
    && |mark| == vc + 1 && !mark[0]
    && NoDuplicates(tmp)
    && (forall x :: x in tmp ==> LitOk(vc, x) && -x in trail && 2 <= Lev(level, x) < d)
    && (forall x :: x in cur ==> LitOk(vc, x) && -x in trail && Lev(level, x) == d)
    && (forall x :: x in tmp || x in cur ==> Marked(mark, x))
    && (forall v :: 0 <= v <= vc && mark[v] ==> v in tmp || -v in tmp || v in cur || -v in cur)
  }

  ghost predicate Covered(base: seq<seq<int>>, level: seq<nat>, x: int, tmp: seq<int>, cur: set<int>) {
    x in tmp || x in cur || (x != 0 && Entails(base, [-x]))
  }

  lemma MarkLower(vc: nat, level: seq<nat>, trail: seq<int>, d: nat, mark: seq<bool>, tmp: seq<int>, cur: set<int>, x: int)
    requires Analysis(vc, level, trail, d, mark, tmp, cur) && LitOk(vc, x) && -x in trail && 2 <= Lev(level, x) < d && !Marked(mark, x)
    ensures Analysis(vc, level, trail, d, mark[VarOf(x) := true], tmp + [x], cur)
  {
    assert (tmp + [x])[|tmp|] == x;
    assert x !in tmp;
  }

  lemma MarkCurrent(vc: nat, level: seq<nat>, trail: seq<int>, d: nat, mark: seq<bool>, tmp: seq<int>, cur: set<int>, x: int)
    requires Analysis(vc, level, trail, d, mark, tmp, cur) && LitOk(vc, x) && -x in trail && Lev(level, x) == d && !Marked(mark, x)
    ensures x !in cur && Analysis(vc, level, trail, d, mark[VarOf(x) := true], tmp, cur + {x})
  {
  }

  /** A marked false literal is itself in the resolvent: its opposite is not false. */
  lemma MarkedIn(vc: nat, level: seq<nat>, trail: seq<int>, d: nat, mark: seq<bool>, tmp: seq<int>, cur: set<int>,
                 x: int, value: seq<int>)
    requires Analysis(vc, level, trail, d, mark, tmp, cur) && LitOk(vc, x) && -x in trail && Marked(mark, x)
    requires forall i :: 0 <= i < |trail| ==> Val(value, trail[i]) == 1
    ensures x in tmp || x in cur
  {
    assert Val(value, -x) == 1;
    assert x in trail ==> Val(value, x) == 1;
    assert -x in tmp || -x in cur ==> -(-x) in trail;
  }

  /** The conflict clause, without its root-level literals, is the first resolvent. */
  lemma ResolventStart(base: seq<seq<int>>, level: seq<nat>, c: seq<int>, tmp: seq<int>, cur: set<int>)
    requires Entails(base, c) && forall k :: 0 <= k < |c| ==> Covered(base, level, c[k], tmp, cur)
    ensures EntailsUnion(base, tmp, cur)
  {
    forall a: Assignment | Models(a, base) ensures exists x :: (x in tmp || x in cur) && Holds(a, x) {
      assert Satisfies(a, c);
      var x :| x in c && Holds(a, x);
      assert !(x in tmp || x in cur) ==> Satisfies(a, [-x]);
    }
  }

  /** Resolving the popped literal with its antecedent. */
  lemma ResolventStep(base: seq<seq<int>>, level: seq<nat>, l: int, c: seq<int>, tmp: seq<int>, cur: set<int>,
                      tmp': seq<int>, cur': set<int>)
    requires EntailsUnion(base, tmp, cur) && l != 0
    requires forall a: Assignment :: Models(a, base) ==> Holds(a, l) || Satisfies(a, c)
    requires forall k :: 0 <= k < |c| ==> Covered(base, level, c[k], tmp', cur')
    requires (forall x :: x in tmp ==> x in tmp') && forall x :: x in cur && x != -l ==> x in cur'
    requires -l !in tmp
    ensures EntailsUnion(base, tmp', cur')
  {
    forall a: Assignment | Models(a, base) ensures exists x :: (x in tmp' || x in cur') && Holds(a, x) {
      if Holds(a, l) {
        var x :| (x in tmp || x in cur) && Holds(a, x);
        assert x != -l;
      } else {
        var x :| x in c && Holds(a, x);
        assert !(x in tmp' || x in cur') ==> Satisfies(a, [-x]);
      }
    }
  }

  /** A literal of tmp is redundant if it was implied and all literals of its antecedent are marked. */
  predicate Redundant(store: seq<seq<int>>, ante: seq<Ante>, mark: seq<bool>, x: int) {
    AnteOf(ante, x) != Decided && forall k :: 0 <= k < |AnteLits(store, AnteOf(ante, x))| ==> Marked(mark, AnteLits(store, AnteOf(ante, x))[k])
  }

  /** A reason is a clause the base formula entails. */
  lemma ReasonEntailed(base: seq<seq<int>>, vc: nat, store: seq<seq<int>>, imp: map<int, seq<int>>, l: int, a: Ante,
                       before: seq<int>)
    requires Reason(vc, store, imp, l, a, before) && StoreSound(base, store, imp)
    ensures forall m: Assignment :: Models(m, base) ==> Holds(m, l) || Satisfies(m, AnteLits(store, a))
    ensures forall k :: 0 <= k < |AnteLits(store, a)| ==> -AnteLits(store, a)[k] in before
  {
    forall m: Assignment | Models(m, base) ensures Holds(m, l) || Satisfies(m, AnteLits(store, a)) {
      match a
      case Binary(o) =>
        assert Entails(base, [o, l]);
        var x :| x in [o, l] && Holds(m, x);
        assert x == l || x in [o];
      case Stored(id) =>
        assert Entails(base, store[id]);
        var x :| x in store[id] && Holds(m, x);
        var k :| 0 <= k < |store[id]| && store[id][k] == x;
        if k >= 1 {
          assert store[id][1..][k - 1] == x;
        }
    }
  }

  /** The antecedent of an implied literal above the root level, located on the trail. */
  lemma ReasonAt(base: seq<seq<int>>, s: State, i: nat)
    requires AntesOk(s.vc, s.store, s.imp, s.level, s.ante, s.trail) && StoreSound(base, s.store, s.imp)
    requires i < |s.trail| && Lev(s.level, s.trail[i]) >= 2 && AnteOf(s.ante, s.trail[i]) != Decided
    ensures var c := AnteLits(s.store, AnteOf(s.ante, s.trail[i]));
      && (forall m: Assignment :: Models(m, base) ==> Holds(m, s.trail[i]) || Satisfies(m, c))
      && (forall k :: 0 <= k < |c| ==> -c[k] in s.trail[..i])
  {
    assert AnteOk(s.vc, s.store, s.imp, s.level, s.ante, s.trail, i);
    hide StoreSound;
    ReasonEntailed(base, s.vc, s.store, s.imp, s.trail[i], AnteOf(s.ante, s.trail[i]), s.trail[..i]);
  }

  /** Local minimisation: all redundant literals may be dropped at once, because antecedents precede on the trail. */
  lemma {:induction false} MinimisedFalse(base: seq<seq<int>>, s: State, d: nat, mark: seq<bool>, tmp: seq<int>,
                                          m: Assignment, i: nat)
    requires TrailOk(s.vc, s.value, s.level, s.trail, s.dLevel)
    requires AntesOk(s.vc, s.store, s.imp, s.level, s.ante, s.trail) && StoreSound(base, s.store, s.imp)
    requires Analysis(s.vc, s.level, s.trail, d, mark, tmp, {}) && Models(m, base)
    requires forall x :: x in tmp && !Redundant(s.store, s.ante, mark, x) ==> !Holds(m, x)
    requires i < |s.trail| && -s.trail[i] in tmp
    ensures !Holds(m, -s.trail[i])
    decreases i
  {
    hide AntesOk;
    hide StoreSound;
    hide TrailOk;
    hide AnteLits;
    hide Models;
    var l := s.trail[i];
    TrailFacts(s.vc, s.value, s.level, s.trail, s.dLevel);
    if Redundant(s.store, s.ante, mark, -l) {
      assert Lev(s.level, -l) == Lev(s.level, l) && AnteOf(s.ante, -l) == AnteOf(s.ante, l);
      var c := AnteLits(s.store, AnteOf(s.ante, l));
      ReasonAt(base, s, i);
      hide Redundant;
      forall x | x in c ensures !Holds(m, x) {
        var k :| 0 <= k < |c| && c[k] == x;
        var j :| 0 <= j < i && s.trail[..i][j] == -x;
        assert s.trail[j] == -x;
        assert Marked(mark, x);
        MarkedIn(s.vc, s.level, s.trail, d, mark, tmp, {}, x, s.value);
        MinimisedFalse(base, s, d, mark, tmp, m, j);
      }
      assert Holds(m, l);
    }
  }

  /** The learned clause, the UIP's negation u with the literals of tmp that are not redundant, is entailed. */
  lemma LearnedEntailed(base: seq<seq<int>>, s: State, d: nat, mark: seq<bool>, tmp: seq<int>, u: int, c: seq<int>)
    requires TrailOk(s.vc, s.value, s.level, s.trail, s.dLevel)
    requires AntesOk(s.vc, s.store, s.imp, s.level, s.ante, s.trail) && StoreSound(base, s.store, s.imp)
    requires Analysis(s.vc, s.level, s.trail, d, mark, tmp, {}) && EntailsUnion(base, tmp, {u})
    requires u in c && forall x :: x in tmp && !Redundant(s.store, s.ante, mark, x) ==> x in c
    ensures Entails(base, c)
  {
    hide AntesOk;
    hide StoreSound;
    hide TrailOk;
    hide Models;
    hide Redundant;
    forall m: Assignment | Models(m, base) ensures Satisfies(m, c) {
      var x :| (x in tmp || x in {u}) && Holds(m, x);
      if x != u {
        var i :| 0 <= i < |s.trail| && s.trail[i] == -x;
        if forall y :: y in tmp && !Redundant(s.store, s.ante, mark, y) ==> !Holds(m, y) {
          MinimisedFalse(base, s, d, mark, tmp, m, i);
          assert false;
        } else {
          var y :| y in tmp && !Redundant(s.store, s.ante, mark, y) && Holds(m, y);
        }
      }
    }
  }

  // --------------------------------------------------------- adding a clause

  /** addClause for a clause of two or more literals: its first two are watched. */
  function Added(s: State, c: seq<int>): State
    requires |c| >= 2 && c[0] != c[1] && c[0] in s.watch && c[1] in s.watch
  {
    var id := |s.store|;
    s.(store := s.store + [c], watch := s.watch[c[0] := s.watch[c[0]] + [id]][c[1] := s.watch[c[1]] + [id]])
  }

  lemma AddedFiled(cc: nat, store: seq<seq<int>>, watch: map<int, seq<nat>>, c: seq<int>)
    requires Filed(cc, store, watch) && cc <= |store| && |c| >= 2 && c[0] != c[1] && c[0] in watch && c[1] in watch
    ensures Filed(cc, store + [c], watch[c[0] := watch[c[0]] + [|store|]][c[1] := watch[c[1]] + [|store|]])
  {
    var store', watch' := store + [c], watch[c[0] := watch[c[0]] + [|store|]][c[1] := watch[c[1]] + [|store|]];
    forall l | l in watch ensures |store| !in watch[l] {
      assert !Watched(cc, store, |store|);
    }
    forall v | 0 <= v <= 1 ensures |store| in watch'[c[v]] {
      assert watch'[c[v]][|watch[c[v]]|] == |store|;
    }
    forall x: nat, v | Watched(cc, store', x) && 0 <= v <= 1 ensures store'[x][v] in watch' && x in watch'[store'[x][v]] {
      if x < |store| {
        assert Watched(cc, store, x) && x in watch[store[x][v]];
      }
    }
    forall l, x: nat | l in watch' && x in watch'[l] ensures Watched(cc, store', x) && (store'[x][0] == l || store'[x][1] == l) {
      if x != |store| {
        assert x in watch[l];
      }
    }
  }

  lemma AddedStore(base: seq<seq<int>>, vc: nat, cc: nat, store: seq<seq<int>>, imp: map<int, seq<int>>, c: seq<int>)
    requires StoreShape(vc, cc, store) && StoreSound(base, store, imp)
    requires ClauseShape(vc, c) && |c| >= 2 && Entails(base, c)
    ensures StoreShape(vc, cc, store + [c]) && StoreSound(base, store + [c], imp)
  {
    hide Entails;
    hide ClauseShape;
  }

  lemma AddedWatches(vc: nat, cc: nat, store: seq<seq<int>>, value: seq<int>, level: seq<nat>, todo: set<int>, c: seq<int>)
    requires WatchesDone(cc, store, value, level, todo, -1, 0, []) && |c| >= 2
    ensures WatchesDone(cc, store + [c], value, level, todo, |store|, 0, [])
  {
    forall id: nat | Watched(cc, store + [c], id) && id != |store| ensures Watched(cc, store, id) && (store + [c])[id] == store[id] {
    }
  }

  lemma AddedAntes(vc: nat, store: seq<seq<int>>, imp: map<int, seq<int>>, level: seq<nat>, ante: seq<Ante>,
                   trail: seq<int>, c: seq<int>)
    requires AntesOk(vc, store, imp, level, ante, trail)
    ensures AntesOk(vc, store + [c], imp, level, ante, trail)
  {
    var store' := store + [c];
    forall i: nat | i < |trail| ensures AnteOk(vc, store', imp, level, ante, trail, i) {
      assert AnteOk(vc, store, imp, level, ante, trail, i);
    }
  }

  lemma AddedLists(vc: nat, imp: map<int, seq<int>>, watch: map<int, seq<nat>>, c: seq<int>, id: nat)
    requires ListShape(vc, imp, watch) && ClauseShape(vc, c) && |c| >= 2
    ensures c[0] != c[1] && c[0] in watch && c[1] in watch
    ensures ListShape(vc, imp, watch[c[0] := watch[c[0]] + [id]][c[1] := watch[c[1]] + [id]])
  {
  }

  /** An entailed clause may be added at any moment; its own watches are not yet in order. */
  lemma AddedKeeps(base: seq<seq<int>>, s: State, b: nat, c: seq<int>)
    requires InvBelow(base, s, b, -1) && ClauseShape(s.vc, c) && |c| >= 2 && Entails(base, c)
    ensures c[0] != c[1] && c[0] in s.watch && c[1] in s.watch && InvBelow(base, Added(s, c), b, |s.store|)
  {
    hide VarsShape;
    hide StoreShape;
    hide ListShape;
    hide TrailOk;
    hide AntesOk;
    hide Filed;
    hide WatchesDone;
    hide BinariesDone;
    hide StoreSound;
    hide RootSound;
    hide Entails;
    AddedLists(s.vc, s.imp, s.watch, c, |s.store|);
    CountInStore(s.vc, s.cc, s.store);
    AddedFiled(s.cc, s.store, s.watch, c);
    AddedStore(base, s.vc, s.cc, s.store, s.imp, c);
    AddedWatches(s.vc, s.cc, s.store, s.value, s.level, Above(s.level, s.trail, b), c);
    AddedAntes(s.vc, s.store, s.imp, s.level, s.ante, s.trail, c);
  }

  lemma CountInStore(vc: nat, cc: nat, store: seq<seq<int>>)
    requires StoreShape(vc, cc, store)
    ensures cc <= |store|
  {
  }

  // -------------------------------------------------- after the backjump

  /** The state a backjump leaves: exactly the assignments above level b are gone. */
  ghost predicate Rewound(value: seq<int>, level: seq<nat>, value': seq<int>, b: nat) {
    |value'| == |value| && forall x :: Val(value', x) == if Val(value, x) != 0 && Lev(level, x) <= b then Val(value, x) else 0
  }

  /** A clause is asserting for level b: its first literal is free, the others are false, the second at level b. */
  ghost predicate Asserting(vc: nat, value: seq<int>, level: seq<nat>, c: seq<int>, b: nat) {
    && c != [] && Val(value, c[0]) == 0
    && (forall k :: 1 <= k < |c| ==> Val(value, c[k]) == -1 && Lev(level, c[k]) <= b)
    && (if |c| >= 2 then b >= 2 && Lev(level, c[1]) == b else b == 1)
  }

  /** Asserting the first literal of the learned clause at its assertion level puts its watches in order. */
  lemma AssertLearned(base: seq<seq<int>>, s: State, id: nat)
    requires Inv(base, s, {}, id, 0, []) && id < |s.store| && id >= s.cc && |s.store[id]| >= 2
    requires Asserting(s.vc, s.value, s.level, s.store[id], s.dLevel)
    ensures LitOk(s.vc, s.store[id][0]) && |s.value| == |s.level| == |s.ante| == s.vc + 1
    ensures Inv(base, Place(s, s.store[id][0], Stored(id)), {s.store[id][0]}, -1, 0, [])
  {
    hide AntesOk;
    hide Filed;
    hide BinariesDone;
    hide StoreSound;
    hide RootSound;
    hide Entails;
    hide AnteFits;
    var c := s.store[id];
    assert ClauseShape(s.vc, c) && Watched(s.cc, s.store, id);
    LearnedFits(s, id);
    PlaceKeeps(base, s, {}, id, 0, [], c[0], Stored(id));
    PlaceVals(s.value, c[0]);
    PlaceLevs(s.level, c[0], s.dLevel);
    var t := Place(s, c[0], Stored(id));
    assert {} + {c[0]} == {c[0]};
    DropException(s.cc, s.store, t.value, t.level, {c[0]}, id);
  }

  lemma LearnedFits(s: State, id: nat)
    requires StoreShape(s.vc, s.cc, s.store) && TrailOk(s.vc, s.value, s.level, s.trail, s.dLevel)
    requires id < |s.store| && |s.store[id]| >= 2 && Asserting(s.vc, s.value, s.level, s.store[id], s.dLevel)
    ensures AnteFits(s.vc, s.store, s.imp, s.level, s.trail, s.dLevel, s.store[id][0], Stored(id))
  {
    var c := s.store[id];
    assert ClauseShape(s.vc, c);
    TrailFacts(s.vc, s.value, s.level, s.trail, s.dLevel);
    forall k | 1 <= k < |c| ensures -c[k] in s.trail {
      assert Val(s.value, -c[k]) == 1;
    }
    TopOfLevel(s, c);
  }

  lemma DropException(cc: nat, store: seq<seq<int>>, value: seq<int>, level: seq<nat>, todo: set<int>, id: nat)
    requires WatchesDone(cc, store, value, level, todo, id, 0, []) && id < |store| && |store[id]| >= 2
    requires Val(value, store[id][0]) != -1
    requires Val(value, store[id][1]) == -1 ==> Val(value, store[id][0]) == 1 && Lev(level, store[id][0]) <= Lev(level, store[id][1])
    ensures WatchesDone(cc, store, value, level, todo, -1, 0, [])
  {
  }

  /** After a restart both watches of the learned clause are free. */
  lemma RestartedLearned(base: seq<seq<int>>, s: State, id: nat)
    requires Inv(base, s, {}, id, 0, []) && id < |s.store| && |s.store[id]| >= 2
    requires Val(s.value, s.store[id][0]) == 0 && Val(s.value, s.store[id][1]) == 0
    ensures Inv(base, s, {}, -1, 0, [])
  {
    hide AntesOk;
    hide Filed;
    hide BinariesDone;
    hide StoreSound;
    hide RootSound;
    hide StoreShape;
    hide TrailOk;
    DropException(s.cc, s.store, s.value, s.level, {}, id);
  }

  // ----------------------------------------------- complete propagation

  /** With nothing left to process, a clause that is not satisfied has two free literals: none is
      falsified, and none is unit. */
  ghost predicate OpenTwice(value: seq<int>, c: seq<int>) {
    (exists l :: l in c && Val(value, l) == 1) || (exists i, j :: 0 <= i < j < |c| && Val(value, c[i]) == 0 && Val(value, c[j]) == 0)
  }

  lemma PropagationComplete(base: seq<seq<int>>, s: State)
    requires Inv(base, s, {}, -1, 0, [])
    ensures forall id: nat :: Watched(s.cc, s.store, id) ==> OpenTwice(s.value, s.store[id])
    ensures forall l, o :: LitOk(s.vc, l) && l in s.imp && o in s.imp[l] ==> OpenTwice(s.value, [l, o])
  {
    hide AntesOk;
    hide Filed;
    hide StoreSound;
    hide RootSound;
    hide TrailOk;
    forall id: nat | Watched(s.cc, s.store, id) ensures OpenTwice(s.value, s.store[id]) {
      WatchedOpen(s.vc, s.cc, s.store, s.value, s.level, id);
    }
    forall l, o | LitOk(s.vc, l) && l in s.imp && o in s.imp[l] ensures OpenTwice(s.value, [l, o]) {
      BinaryOpen(s.vc, s.imp, s.value, s.level, l, o);
    }
  }

  lemma WatchedOpen(vc: nat, cc: nat, store: seq<seq<int>>, value: seq<int>, level: seq<nat>, id: nat)
    requires WatchesDone(cc, store, value, level, {}, -1, 0, []) && Watched(cc, store, id)
    requires forall x :: -1 <= Val(value, x) <= 1
    ensures OpenTwice(value, store[id])
  {
    var c := store[id];
    assert c[0] in c && c[1] in c;
    if Val(value, c[0]) == -1 {
      assert Val(value, c[1 - 0]) == 1;
    } else if Val(value, c[1]) == -1 {
      assert Val(value, c[1 - 1]) == 1;
    }
  }

  lemma BinaryOpen(vc: nat, imp: map<int, seq<int>>, value: seq<int>, level: seq<nat>, l: int, o: int)
    requires BinariesDone(vc, imp, value, level, {}) && LitOk(vc, l) && l in imp && o in imp[l]
    requires forall x :: -1 <= Val(value, x) <= 1
    requires LitOk(vc, o) && o in imp && l in imp[o]
    ensures OpenTwice(value, [l, o])
  {
    var c := [l, o];
    assert c[0] == l && c[1] == o && l in c && o in c;
  }
}
