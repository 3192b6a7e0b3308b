/** The preprocessor of c_pro/up.cpp: watched unit propagation interleaved with
    pure-literal elimination, run to a fixpoint, then a rebuild of what is left. */
module Preprocessor {
  import opened Logic

  /** A formula in the flat layout of c_pro/cnf.h: clause i is lits[offsets[i]..offsets[i+1]]. */
  datatype Cnf = Cnf(numVars: nat, numClauses: nat, lits: seq<int>, offsets: seq<nat>) {
    ghost predicate Valid() {
      && |offsets| == numClauses + 1
      && offsets[0] == 0
      && offsets[numClauses] == |lits|
      && (forall i, j :: 0 <= i <= j <= numClauses ==> offsets[i] <= offsets[j])
      && (forall l :: l in lits ==> 1 <= VarOf(l) <= numVars)
    }

    ghost function Clause(i: nat): (c: seq<int>)
      requires Valid() && i < numClauses
    {
      lits[offsets[i]..offsets[i + 1]]
    }

    ghost function Clauses(): (f: seq<seq<int>>)
      requires Valid()
    {
      seq(numClauses, i requires 0 <= i < numClauses => Clause(i))
    }
  }

  datatype ClauseRec = ClauseRec(begin: nat, end: nat, pos0: nat, pos1: nat, satisfied: bool) {
    function Pos(which: nat): nat {
      if which == 0 then pos0 else pos1
    }

    function WithPos(which: nat, k: nat): ClauseRec {
      if which == 0 then this.(pos0 := k) else this.(pos1 := k)
    }
  }

  datatype WatchRef = WatchRef(clause: nat, which: nat)

  function LitIndex(l: int): nat {
    2 * VarOf(l) + (if l < 0 then 1 else 0)
  }

  /** -1 false, 0 unassigned, +1 true. */
  function LitValue(l: int, value: seq<int>): int
    requires VarOf(l) < |value|
  {
    var a := value[VarOf(l)];
    if a == 0 then 0 else if (a > 0) == (l > 0) then 1 else -1
  }

  // ---------------------------------------------------------------- formulas

  ghost predicate WellFormed(f: seq<seq<int>>, n: nat) {
    forall i, k :: 0 <= i < |f| && 0 <= k < |f[i]| ==> 1 <= VarOf(f[i][k]) <= n
  }

  ghost predicate NoEmptyClause(f: seq<seq<int>>) {
    forall i :: 0 <= i < |f| ==> f[i] != []
  }

  // ------------------------------------------------------------ assignments

  ghost predicate ValueOk(n: nat, value: seq<int>) {
    && |value| == n + 1
    && value[0] == 0
    && forall v :: 0 <= v <= n ==> -1 <= value[v] <= 1
  }

  function Unassigned(value: seq<int>): nat {
    if value == [] then 0
    else Unassigned(value[..|value| - 1]) + (if value[|value| - 1] == 0 then 1 else 0)
  }

  lemma {:induction false} AssignDecreasesUnassigned(value: seq<int>, v: nat, s: int)
    requires v < |value| && value[v] == 0 && s != 0
    ensures Unassigned(value) == Unassigned(value[v := s]) + 1
  {
    var m := |value| - 1;
    if v == m {
      assert value[v := s][..m] == value[..m];
    } else {
      assert value[v := s][..m] == value[..m][v := s];
      AssignDecreasesUnassigned(value[..m], v, s);
    }
  }

  /** The trail lists exactly the assigned literals; the queue is its unprocessed suffix. */
  ghost predicate TrailOk(n: nat, value: seq<int>, trail: seq<int>, q: seq<int>) {
    && ValueOk(n, value)
    && (forall i :: 0 <= i < |trail| ==> 1 <= VarOf(trail[i]) <= n && LitValue(trail[i], value) == 1)
    && (forall v :: 1 <= v <= n && value[v] != 0 ==> v in trail || -v in trail)
    && |q| <= |trail|
    && q == trail[|trail| - |q|..]
    && |trail| + Unassigned(value) == n + 1
    && NoDuplicates(trail)
  }

  ghost predicate Extends(a: Assignment, value: seq<int>) {
    forall v :: 1 <= v < |value| ==> (value[v] == 1 ==> v in a) && (value[v] == -1 ==> v !in a)
  }

  /** What every step keeps: a satisfiable input has a model that agrees with every assignment made so far. */
  ghost predicate Preserved(f: seq<seq<int>>, value: seq<int>) {
    Satisfiable(f) ==> exists a: Assignment :: Models(a, f) && Extends(a, value)
  }

  lemma HoldsByValue(a: Assignment, value: seq<int>, l: int)
    requires 1 <= VarOf(l) < |value|
    requires -1 <= value[VarOf(l)] <= 1
    requires Extends(a, value)
    ensures LitValue(l, value) == 1 ==> Holds(a, l)
    ensures LitValue(l, value) == -1 ==> !Holds(a, l)
  {
    assert value[VarOf(l)] == 1 ==> VarOf(l) in a;
    assert value[VarOf(l)] == -1 ==> VarOf(l) !in a;
  }

  // ---------------------------------------------------------------- watches

  ghost predicate ClauseOk(c: seq<int>, r: ClauseRec) {
    && r.pos0 < |c|
    && r.pos1 < |c|
    && (|c| == 1 || r.pos0 != r.pos1)
  }

  /** The watch slots of the first m clauses: a unit clause has one, longer clauses have two. */
  ghost predicate Slot(f: seq<seq<int>>, m: nat, ci: nat, w: nat) {
    ci < m <= |f| && (w == 0 || (w == 1 && |f[ci]| >= 2))
  }

  ghost predicate ClausesOk(f: seq<seq<int>>, m: nat, cls: seq<ClauseRec>) {
    m <= |f| <= |cls| && forall ci :: 0 <= ci < m ==> ClauseOk(f[ci], cls[ci])
  }

  ghost function Watched(f: seq<seq<int>>, m: nat, cls: seq<ClauseRec>, ci: nat, w: nat): int
    requires ClausesOk(f, m, cls) && ci < m
  {
    f[ci][cls[ci].Pos(w)]
  }

  /** Every slot is filed under the literal it watches, and only there, and only once. */
  ghost predicate Filed(f: seq<seq<int>>, n: nat, m: nat, cls: seq<ClauseRec>, watchers: seq<seq<WatchRef>>) {
    && ClausesOk(f, m, cls)
    && WellFormed(f, n)
    && |watchers| == 2 * (n + 1)
    && (forall ci: nat, w: nat :: Slot(f, m, ci, w) ==>
          WatchRef(ci, w) in watchers[LitIndex(Watched(f, m, cls, ci, w))])
    && (forall k, wr :: 0 <= k < |watchers| && wr in watchers[k] ==>
          Slot(f, m, wr.clause, wr.which) && LitIndex(Watched(f, m, cls, wr.clause, wr.which)) == k)
    && forall k :: 0 <= k < |watchers| ==> NoDuplicates(watchers[k])
  }

  /** A watched literal that is false and already dequeued has a true partner,
      except for the references in rest, which watch litFalse and are still to be visited. */
  ghost predicate Settled(f: seq<seq<int>>, n: nat, m: nat, cls: seq<ClauseRec>, value: seq<int>, q: seq<int>,
                          litFalse: int, rest: seq<WatchRef>)
    requires ClausesOk(f, m, cls) && WellFormed(f, n) && |value| == n + 1
  {
    forall ci: nat, w: nat :: Slot(f, m, ci, w) && !cls[ci].satisfied
      && LitValue(Watched(f, m, cls, ci, w), value) == -1
      && -Watched(f, m, cls, ci, w) !in q
      && !(Watched(f, m, cls, ci, w) == litFalse && WatchRef(ci, w) in rest)
      ==> LitValue(Watched(f, m, cls, ci, 1 - w), value) == 1
  }

  ghost predicate FlagsOk(f: seq<seq<int>>, n: nat, m: nat, cls: seq<ClauseRec>, value: seq<int>)
    requires ClausesOk(f, m, cls) && WellFormed(f, n) && |value| == n + 1
  {
    && (forall ci :: 0 <= ci < m && cls[ci].satisfied ==> exists l :: l in f[ci] && VarOf(l) <= n && LitValue(l, value) == 1)
    && (forall ci :: 0 <= ci < m && |f[ci]| == 1 ==> LitValue(f[ci][0], value) != 0)
  }

  // ------------------------------------------------- what one visit preserves

  lemma LitIndexInjective(l: int, k: int)
    requires l != 0 && k != 0
    ensures LitIndex(l) == LitIndex(k) ==> l == k
  {
  }

  /** Flagging a clause satisfied keeps the filing. */
  lemma FlagKeepsFiling(f: seq<seq<int>>, n: nat, m: nat, cls: seq<ClauseRec>, watchers: seq<seq<WatchRef>>, ci: nat)
    requires Filed(f, n, m, cls, watchers) && ci < m
    ensures Filed(f, n, m, cls[ci := cls[ci].(satisfied := true)], watchers)
    ensures forall cj: nat, w: nat :: cj < m ==>
      Watched(f, m, cls[ci := cls[ci].(satisfied := true)], cj, w) == Watched(f, m, cls, cj, w)
  {
    var cls' := cls[ci := cls[ci].(satisfied := true)];
    forall cj: nat, w: nat | cj < m
      ensures Watched(f, m, cls', cj, w) == Watched(f, m, cls, cj, w)
    {
    }
  }

  /** Re-filing a slot under a non-false literal, then swap-popping it from the list being walked. */
  lemma MoveKeepsFiling(f: seq<seq<int>>, n: nat, m: nat, cls: seq<ClauseRec>, watchers: seq<seq<WatchRef>>,
                        ci: nat, w: nat, k: nat, i: nat)
    requires Filed(f, n, m, cls, watchers)
    requires Slot(f, m, ci, w) && |f[ci]| >= 2 && k < |f[ci]| && k != cls[ci].pos0 && k != cls[ci].pos1
    requires var l := Watched(f, m, cls, ci, w); f[ci][k] != l && i < |watchers[LitIndex(l)]| && watchers[LitIndex(l)][i] == WatchRef(ci, w)
    ensures var l := Watched(f, m, cls, ci, w);
      Filed(f, n, m, cls[ci := cls[ci].WithPos(w, k)], Refile(watchers, LitIndex(l), i, LitIndex(f[ci][k])))
  {
    var l := Watched(f, m, cls, ci, w);
    var l' := f[ci][k];
    LitIndexInjective(l, l');
    var cls' := cls[ci := cls[ci].WithPos(w, k)];
    var ref := WatchRef(ci, w);
    var a, b := LitIndex(l), LitIndex(l');
    var ws := Refile(watchers, a, i, b);
    SwapPopMembers(watchers[a], i);
    assert ClausesOk(f, m, cls');
    forall cj: nat, v: nat | Slot(f, m, cj, v)
      ensures WatchRef(cj, v) in ws[LitIndex(Watched(f, m, cls', cj, v))]
    {
      var x := LitIndex(Watched(f, m, cls, cj, v));
      assert WatchRef(cj, v) in watchers[x];
      if cj == ci && v == w {
        assert ws[b] == watchers[b] + [ref];
        assert (watchers[b] + [ref])[|watchers[b]|] == ref;
      } else {
        assert Watched(f, m, cls', cj, v) == Watched(f, m, cls, cj, v);
        assert WatchRef(cj, v) != ref;
        if x == b {
          assert ws[b] == watchers[b] + [ref];
        }
      }
    }
    forall x, wr: WatchRef | 0 <= x < |ws| && wr in ws[x]
      ensures Slot(f, m, wr.clause, wr.which) && LitIndex(Watched(f, m, cls', wr.clause, wr.which)) == x
    {
      if wr != ref {
        assert wr in watchers[x];
      }
    }
    forall x | 0 <= x < |ws|
      ensures NoDuplicates(ws[x])
    {
      if x == b {
        assert ref !in watchers[b];
      }
    }
  }

  /** The list update of a moved watch: append to list b, then overwrite entry i of list a by its last entry and pop. */
  function Refile(watchers: seq<seq<WatchRef>>, a: nat, i: nat, b: nat): seq<seq<WatchRef>>
    requires a < |watchers| && b < |watchers| && a != b && i < |watchers[a]|
  {
    watchers[b := watchers[b] + [watchers[a][i]]][a := SwapPop(watchers[a], i)]
  }

  function SwapPop(vec: seq<WatchRef>, i: nat): seq<WatchRef>
    requires i < |vec|
  {
    vec[i := vec[|vec| - 1]][..|vec| - 1]
  }

  lemma SwapPopMembers(vec: seq<WatchRef>, i: nat)
    requires i < |vec| && NoDuplicates(vec)
    ensures NoDuplicates(SwapPop(vec, i))
    ensures forall x :: x in SwapPop(vec, i) <==> x in vec && x != vec[i]
    ensures forall x :: x in SwapPop(vec, i)[i..] <==> x in vec[i..] && x != vec[i]
  {
    var s := SwapPop(vec, i);
    var last := |vec| - 1;
    forall x | x in vec && x != vec[i] ensures x in s {
      var j :| 0 <= j < |vec| && vec[j] == x;
      assert s[if j == last then i else j] == x;
    }
    forall x | x in vec[i..] && x != vec[i] ensures x in s[i..] {
      var j :| 0 <= j < |vec| - i && vec[i..][j] == x;
      assert s[i..][if j + i == last then 0 else j] == x;
    }
    forall x | x in s[i..] ensures x in vec[i..] && x != vec[i] {
      var j :| 0 <= j < |s| - i && s[i..][j] == x;
      assert x == vec[i..][if j == 0 then last - i else j];
    }
  }

  ghost predicate Invariant(f: seq<seq<int>>, n: nat, m: nat, cls: seq<ClauseRec>, watchers: seq<seq<WatchRef>>,
                            value: seq<int>, trail: seq<int>, q: seq<int>, litFalse: int, rest: seq<WatchRef>)
  {
    && Filed(f, n, m, cls, watchers)
    && TrailOk(n, value, trail, q)
    && FlagsOk(f, n, m, cls, value)
    && Settled(f, n, m, cls, value, q, litFalse, rest)
    && Preserved(f, value)
  }

  lemma InvariantParts(f: seq<seq<int>>, n: nat, m: nat, cls: seq<ClauseRec>, watchers: seq<seq<WatchRef>>,
                       value: seq<int>, trail: seq<int>, q: seq<int>, litFalse: int, rest: seq<WatchRef>)
    requires Invariant(f, n, m, cls, watchers, value, trail, q, litFalse, rest)
    ensures TrailOk(n, value, trail, q) && |value| == n + 1 && |watchers| == 2 * (n + 1) && |q| <= |trail| <= n + 1
  {
  }

  /** Once every reference is visited it no longer matters which literal was being walked. */
  lemma WalkDone(f: seq<seq<int>>, n: nat, m: nat, cls: seq<ClauseRec>, watchers: seq<seq<WatchRef>>,
                 value: seq<int>, trail: seq<int>, q: seq<int>, litFalse: int)
    requires Invariant(f, n, m, cls, watchers, value, trail, q, litFalse, [])
    ensures Invariant(f, n, m, cls, watchers, value, trail, q, 0, [])
  {
  }

  /** Visiting a clause that is satisfied, or satisfied by its other watch, settles the reference. */
  lemma SatisfiedSettles(f: seq<seq<int>>, n: nat, m: nat, cls: seq<ClauseRec>, watchers: seq<seq<WatchRef>>,
                         value: seq<int>, trail: seq<int>, q: seq<int>, litFalse: int, rest: seq<WatchRef>, ci: nat, w: nat)
    requires Invariant(f, n, m, cls, watchers, value, trail, q, litFalse, rest)
    requires rest != [] && rest[0] == WatchRef(ci, w) && Slot(f, m, ci, w)
    requires cls[ci].satisfied || LitValue(Watched(f, m, cls, ci, 1 - w), value) == 1
    ensures Invariant(f, n, m, cls[ci := cls[ci].(satisfied := true)], watchers, value, trail, q, litFalse, rest[1..])
  {
    FlagKeepsFiling(f, n, m, cls, watchers, ci);
    var cls' := cls[ci := cls[ci].(satisfied := true)];
    forall cj | 0 <= cj < m && cls'[cj].satisfied
      ensures exists l :: l in f[cj] && VarOf(l) <= n && LitValue(l, value) == 1
    {
      if !cls[cj].satisfied {
        assert Watched(f, m, cls, ci, 1 - w) in f[ci];
      }
    }
    RestShrinks(rest);
  }

  /** Flagging a clause that has a true literal keeps the invariant. */
  lemma FlagTrueClause(f: seq<seq<int>>, n: nat, m: nat, cls: seq<ClauseRec>, watchers: seq<seq<WatchRef>>,
                       value: seq<int>, trail: seq<int>, q: seq<int>, litFalse: int, rest: seq<WatchRef>, ci: nat)
    requires Invariant(f, n, m, cls, watchers, value, trail, q, litFalse, rest)
    requires ci < m && exists l :: l in f[ci] && VarOf(l) <= n && LitValue(l, value) == 1
    ensures Invariant(f, n, m, cls[ci := cls[ci].(satisfied := true)], watchers, value, trail, q, litFalse, rest)
  {
    FlagKeepsFiling(f, n, m, cls, watchers, ci);
    hide Filed;
    hide TrailOk;
    hide Preserved;
    hide NoDuplicates;
  }

  lemma TruePartnerSettles(f: seq<seq<int>>, n: nat, m: nat, cls: seq<ClauseRec>, watchers: seq<seq<WatchRef>>,
                           value: seq<int>, trail: seq<int>, q: seq<int>, litFalse: int, rest: seq<WatchRef>, ci: nat, w: nat)
    requires Invariant(f, n, m, cls, watchers, value, trail, q, litFalse, rest)
    requires rest != [] && rest[0] == WatchRef(ci, w) && Slot(f, m, ci, w)
    requires LitValue(Watched(f, m, cls, ci, 1 - w), value) == 1
    ensures Invariant(f, n, m, cls, watchers, value, trail, q, litFalse, rest[1..])
  {
    RestShrinks(rest);
    hide TrailOk;
    hide FlagsOk;
    hide Preserved;
    hide NoDuplicates;
  }

  lemma RestShrinks(rest: seq<WatchRef>)
    requires rest != []
    ensures forall x :: x in rest && x != rest[0] ==> x in rest[1..]
  {
    assert rest == [rest[0]] + rest[1..];
  }

  lemma MovedKeepsSettled(f: seq<seq<int>>, n: nat, m: nat, cls: seq<ClauseRec>, value: seq<int>, q: seq<int>,
                          litFalse: int, rest: seq<WatchRef>, rest': seq<WatchRef>, ci: nat, w: nat, k: nat)
    requires ClausesOk(f, m, cls) && WellFormed(f, n) && |value| == n + 1 && Slot(f, m, ci, w)
    requires ClausesOk(f, m, cls[ci := cls[ci].WithPos(w, k)])
    requires Settled(f, n, m, cls, value, q, litFalse, rest)
    requires forall x :: x in rest && x != WatchRef(ci, w) ==> x in rest'
    requires |f[ci]| >= 2 && k < |f[ci]|
    requires Watched(f, m, cls, ci, w) == litFalse && LitValue(litFalse, value) == -1 && LitValue(f[ci][k], value) != -1
    ensures Settled(f, n, m, cls[ci := cls[ci].WithPos(w, k)], value, q, litFalse, rest')
  {
    var cls' := cls[ci := cls[ci].WithPos(w, k)];
    forall cj: nat, v: nat | Slot(f, m, cj, v) && !cls'[cj].satisfied
        && LitValue(Watched(f, m, cls', cj, v), value) == -1
        && -Watched(f, m, cls', cj, v) !in q
        && !(Watched(f, m, cls', cj, v) == litFalse && WatchRef(cj, v) in rest')
      ensures LitValue(Watched(f, m, cls', cj, 1 - v), value) == 1
    {
      if cj != ci {
        assert Watched(f, m, cls', cj, v) == Watched(f, m, cls, cj, v);
        assert Watched(f, m, cls', cj, 1 - v) == Watched(f, m, cls, cj, 1 - v);
      }
    }
  }

  /** A watch moved to a literal that is not false settles the reference. */
  lemma MovedSettles(f: seq<seq<int>>, n: nat, m: nat, cls: seq<ClauseRec>, watchers: seq<seq<WatchRef>>,
                     value: seq<int>, trail: seq<int>, q: seq<int>, litFalse: int, ci: nat, w: nat, k: nat, i: nat)
    requires litFalse != 0 && VarOf(litFalse) <= n && LitIndex(litFalse) < |watchers| && i < |watchers[LitIndex(litFalse)]|
    requires Invariant(f, n, m, cls, watchers, value, trail, q, litFalse, watchers[LitIndex(litFalse)][i..])
    requires watchers[LitIndex(litFalse)][i] == WatchRef(ci, w) && Slot(f, m, ci, w)
    requires Watched(f, m, cls, ci, w) == litFalse && LitValue(litFalse, value) == -1
    requires |f[ci]| >= 2 && k < |f[ci]| && k != cls[ci].pos0 && k != cls[ci].pos1 && LitValue(f[ci][k], value) != -1
    ensures LitIndex(f[ci][k]) < |watchers| && LitIndex(f[ci][k]) != LitIndex(litFalse)
    ensures var ws := Refile(watchers, LitIndex(litFalse), i, LitIndex(f[ci][k]));
      Invariant(f, n, m, cls[ci := cls[ci].WithPos(w, k)], ws, value, trail, q, litFalse, ws[LitIndex(litFalse)][i..])
  {
    LitIndexInjective(litFalse, f[ci][k]);
    var ws := Refile(watchers, LitIndex(litFalse), i, LitIndex(f[ci][k]));
    var cls' := cls[ci := cls[ci].WithPos(w, k)];
    var rest, rest' := watchers[LitIndex(litFalse)][i..], ws[LitIndex(litFalse)][i..];
    assert Filed(f, n, m, cls', ws) by {
      MoveKeepsFiling(f, n, m, cls, watchers, ci, w, k, i);
    }
    assert Settled(f, n, m, cls', value, q, litFalse, rest') by {
      SwapPopMembers(watchers[LitIndex(litFalse)], i);
      MovedKeepsSettled(f, n, m, cls, value, q, litFalse, rest, rest', ci, w, k);
    }
    hide Filed;
    hide Settled;
    hide TrailOk;
  }

  function Assign(value: seq<int>, l: int): seq<int>
    requires VarOf(l) < |value|
  {
    value[VarOf(l) := if l > 0 then 1 else -1]
  }

  lemma AssignedValues(n: nat, value: seq<int>, l: int)
    requires |value| == n + 1 && 1 <= VarOf(l) <= n && LitValue(l, value) == 0
    ensures forall x :: VarOf(x) <= n && x != 0 ==>
      LitValue(x, Assign(value, l)) == if x == l then 1 else if x == -l then -1 else LitValue(x, value)
  {
  }

  lemma EnqueueKeepsTrail(n: nat, value: seq<int>, trail: seq<int>, q: seq<int>, l: int)
    requires TrailOk(n, value, trail, q) && 1 <= VarOf(l) <= n && LitValue(l, value) == 0
    ensures TrailOk(n, Assign(value, l), trail + [l], q + [l])
  {
    AssignedValues(n, value, l);
    AssignDecreasesUnassigned(value, VarOf(l), if l > 0 then 1 else -1);
    var trail' := trail + [l];
    assert trail'[|trail|] == l;
    forall v | 1 <= v <= n && Assign(value, l)[v] != 0 ensures v in trail' || -v in trail' {
      if v != VarOf(l) {
        assert v in trail || -v in trail;
      }
    }
    assert q + [l] == trail'[|trail'| - |q + [l]|..];
  }

  lemma EnqueueKeepsFlags(f: seq<seq<int>>, n: nat, m: nat, cls: seq<ClauseRec>, value: seq<int>, l: int)
    requires ClausesOk(f, m, cls) && WellFormed(f, n) && |value| == n + 1
    requires FlagsOk(f, n, m, cls, value) && 1 <= VarOf(l) <= n && LitValue(l, value) == 0
    ensures FlagsOk(f, n, m, cls, Assign(value, l))
  {
    AssignedValues(n, value, l);
    var value' := Assign(value, l);
    forall ci | 0 <= ci < m && cls[ci].satisfied
      ensures exists x :: x in f[ci] && VarOf(x) <= n && LitValue(x, value') == 1
    {
      var x :| x in f[ci] && VarOf(x) <= n && LitValue(x, value) == 1;
      assert LitValue(x, value') == 1;
    }
  }

  lemma EnqueueKeepsSettled(f: seq<seq<int>>, n: nat, m: nat, cls: seq<ClauseRec>, value: seq<int>, q: seq<int>,
                            litFalse: int, rest: seq<WatchRef>, l: int)
    requires ClausesOk(f, m, cls) && WellFormed(f, n) && |value| == n + 1
    requires Settled(f, n, m, cls, value, q, litFalse, rest) && 1 <= VarOf(l) <= n && LitValue(l, value) == 0
    ensures Settled(f, n, m, cls, Assign(value, l), q + [l], litFalse, rest)
  {
    AssignedValues(n, value, l);
    assert (q + [l])[|q|] == l;
    forall ci: nat, w: nat | Slot(f, m, ci, w) && !cls[ci].satisfied
        && LitValue(Watched(f, m, cls, ci, w), Assign(value, l)) == -1
        && -Watched(f, m, cls, ci, w) !in q + [l]
        && !(Watched(f, m, cls, ci, w) == litFalse && WatchRef(ci, w) in rest)
      ensures LitValue(Watched(f, m, cls, ci, 1 - w), Assign(value, l)) == 1
    {
      assert Watched(f, m, cls, ci, w) != -l;
      assert LitValue(Watched(f, m, cls, ci, w), value) == -1;
    }
  }

  /** Enqueueing an unassigned literal keeps everything but, by itself, preservation. */
  lemma EnqueueKeeps(f: seq<seq<int>>, n: nat, m: nat, cls: seq<ClauseRec>, watchers: seq<seq<WatchRef>>,
                     value: seq<int>, trail: seq<int>, q: seq<int>, litFalse: int, rest: seq<WatchRef>, l: int)
    requires Invariant(f, n, m, cls, watchers, value, trail, q, litFalse, rest)
    requires 1 <= VarOf(l) <= n && LitValue(l, value) == 0
    requires Preserved(f, Assign(value, l))
    ensures Invariant(f, n, m, cls, watchers, Assign(value, l), trail + [l], q + [l], litFalse, rest)
  {
    EnqueueKeepsTrail(n, value, trail, q, l);
    EnqueueKeepsFlags(f, n, m, cls, value, l);
    EnqueueKeepsSettled(f, n, m, cls, value, q, litFalse, rest, l);
    hide TrailOk;
    hide FlagsOk;
    hide Settled;
    hide Preserved;
  }

  /** A clause whose every other literal is false forces its remaining literal. */
  lemma UnitPreserves(f: seq<seq<int>>, n: nat, value: seq<int>, ci: nat, l: int)
    requires WellFormed(f, n) && ValueOk(n, value) && Preserved(f, value)
    requires ci < |f| && 1 <= VarOf(l) <= n && LitValue(l, value) == 0
    requires forall k :: 0 <= k < |f[ci]| && f[ci][k] != l ==> LitValue(f[ci][k], value) == -1
    ensures Preserved(f, Assign(value, l))
  {
    if Satisfiable(f) {
      var a: Assignment :| Models(a, f) && Extends(a, value);
      assert f[ci] in f;
      var x :| x in f[ci] && Holds(a, x);
      if x != l {
        HoldsByValue(a, value, x);
      }
      assert Extends(a, Assign(value, l));
    }
  }

  /** A clause whose literals are all false refutes the formula. */
  lemma ConflictRefutes(f: seq<seq<int>>, n: nat, value: seq<int>, ci: nat)
    requires WellFormed(f, n) && ValueOk(n, value) && Preserved(f, value) && ci < |f|
    requires forall k :: 0 <= k < |f[ci]| ==> LitValue(f[ci][k], value) == -1
    ensures !Satisfiable(f)
  {
    if Satisfiable(f) {
      var a: Assignment :| Models(a, f) && Extends(a, value);
      assert f[ci] in f;
      var x :| x in f[ci] && Holds(a, x);
      HoldsByValue(a, value, x);
    }
  }

  // --------------------------------------------------------- pure literals

  ghost predicate ClauseTrue(c: seq<int>, n: nat, value: seq<int>)
    requires |value| == n + 1
  {
    exists l :: l in c && VarOf(l) <= n && LitValue(l, value) == 1
  }

  /** Literal l is unassigned and occurs in one of the first m clauses that is not yet true. */
  ghost predicate Occurs(f: seq<seq<int>>, n: nat, m: nat, value: seq<int>, l: int)
    requires |value| == n + 1 && m <= |f|
  {
    VarOf(l) <= n && LitValue(l, value) == 0 && exists ci :: 0 <= ci < m && l in f[ci] && !ClauseTrue(f[ci], n, value)
  }

  ghost predicate OccursIn(c: seq<int>, n: nat, value: seq<int>, l: int)
    requires |value| == n + 1
  {
    VarOf(l) <= n && LitValue(l, value) == 0 && l in c && !ClauseTrue(c, n, value)
  }

  ghost predicate NoPure(f: seq<seq<int>>, n: nat, value: seq<int>)
    requires |value| == n + 1
  {
    forall v :: 1 <= v <= n && value[v] == 0 ==> (Occurs(f, n, |f|, value, v) <==> Occurs(f, n, |f|, value, -v))
  }

  ghost predicate Grows(n: nat, value: seq<int>, value': seq<int>) {
    |value| == |value'| == n + 1 && forall v :: 0 <= v <= n && value[v] != 0 ==> value'[v] == value[v]
  }

  /** A literal whose negation no longer occurs may be made true: flipping its variable keeps every clause. */
  lemma PurePreserves(f: seq<seq<int>>, n: nat, before: seq<int>, value: seq<int>, l: int)
    requires WellFormed(f, n) && ValueOk(n, value) && ValueOk(n, before) && Grows(n, before, value)
    requires Preserved(f, value) && 1 <= VarOf(l) <= n && LitValue(l, value) == 0
    requires !Occurs(f, n, |f|, before, -l)
    ensures Preserved(f, Assign(value, l))
  {
    if Satisfiable(f) {
      var a: Assignment :| Models(a, f) && Extends(a, value);
      var b: Assignment := if l > 0 then a + iset{l} else a - iset{-l};
      forall c | c in f ensures Satisfies(b, c) {
        PureFlip(f, n, before, value, l, a, b, c);
      }
      assert Extends(b, Assign(value, l));
    }
  }

  lemma PureFlip(f: seq<seq<int>>, n: nat, before: seq<int>, value: seq<int>, l: int, a: Assignment, b: Assignment, c: seq<int>)
    requires WellFormed(f, n) && ValueOk(n, value) && ValueOk(n, before) && Grows(n, before, value)
    requires 1 <= VarOf(l) <= n && LitValue(l, value) == 0 && !Occurs(f, n, |f|, before, -l)
    requires Satisfies(a, c) && Extends(a, value) && c in f
    requires b == if l > 0 then a + iset{l} else a - iset{-l}
    ensures Satisfies(b, c)
  {
    var x :| x in c && Holds(a, x);
    if x != -l {
      assert Holds(b, x);
    } else {
      var ci :| 0 <= ci < |f| && f[ci] == c;
      assert ClauseTrue(c, n, before);
      var y :| y in c && VarOf(y) <= n && LitValue(y, before) == 1;
      assert LitValue(y, value) == 1;
      HoldsByValue(a, value, y);
      assert Holds(b, y);
    }
  }

  // ----------------------------------------------------------------- rebuild

  function Remaining(c: seq<int>, n: nat, value: seq<int>): (r: seq<int>)
    requires |value| == n + 1 && forall k :: 0 <= k < |c| ==> VarOf(c[k]) <= n
    ensures forall l :: l in r <==> l in c && LitValue(l, value) == 0
  {
    if c == [] then []
    else Remaining(c[..|c| - 1], n, value) + (if LitValue(c[|c| - 1], value) == 0 then [c[|c| - 1]] else [])
  }

  predicate IsTrue(c: seq<int>, n: nat, value: seq<int>)
    requires |value| == n + 1 && forall k :: 0 <= k < |c| ==> VarOf(c[k]) <= n
  {
    exists k :: 0 <= k < |c| && LitValue(c[k], value) == 1
  }

  /** The formula left over: clauses that are not true, stripped of their false literals. */
  ghost function Residual(f: seq<seq<int>>, n: nat, value: seq<int>): seq<seq<int>>
    requires |value| == n + 1 && WellFormed(f, n)
  {
    if f == [] then []
    else
      var m := |f| - 1;
      Residual(f[..m], n, value) + (if IsTrue(f[m], n, value) then [] else [Remaining(f[m], n, value)])
  }

  /** out holds what is left over of the first m clauses, and nothing empty. */
  ghost predicate Rebuilt(out: Cnf, f: seq<seq<int>>, m: nat, n: nat, value: seq<int>)
    requires |value| == n + 1 && WellFormed(f, n) && m <= |f|
  {
    out.Valid() && out.numVars == n && out.Clauses() == Residual(f[..m], n, value) && NoEmptyClause(out.Clauses())
  }

  lemma {:induction false} ResidualOrigin(f: seq<seq<int>>, n: nat, value: seq<int>, c: seq<int>) returns (ci: nat)
    requires |value| == n + 1 && WellFormed(f, n) && c in Residual(f, n, value)
    ensures ci < |f| && !IsTrue(f[ci], n, value) && c == Remaining(f[ci], n, value)
  {
    var m := |f| - 1;
    if c in Residual(f[..m], n, value) {
      ci := ResidualOrigin(f[..m], n, value, c);
    } else {
      ci := m;
    }
  }

  lemma {:induction false} ResidualHas(f: seq<seq<int>>, n: nat, value: seq<int>, ci: nat)
    requires |value| == n + 1 && WellFormed(f, n) && ci < |f| && !IsTrue(f[ci], n, value)
    ensures Remaining(f[ci], n, value) in Residual(f, n, value)
  {
    var m := |f| - 1;
    if ci < m {
      assert f[..m][ci] == f[ci];
      ResidualHas(f[..m], n, value, ci);
    }
  }

  /** The completion of a by value: assigned variables follow value, the others follow a. */
  ghost function Override(a: Assignment, value: seq<int>): Assignment {
    iset v: int | if 1 <= v < |value| && value[v] != 0 then value[v] > 0 else v in a
  }

  /** Models of the input that agree with value are models of what is left ... */
  lemma ResidualSound(f: seq<seq<int>>, n: nat, value: seq<int>, a: Assignment)
    requires ValueOk(n, value) && WellFormed(f, n) && Models(a, f) && Extends(a, value)
    ensures Models(a, Residual(f, n, value))
  {
    forall c | c in Residual(f, n, value) ensures Satisfies(a, c) {
      var ci := ResidualOrigin(f, n, value, c);
      assert f[ci] in f;
      var x :| x in f[ci] && Holds(a, x);
      HoldsByValue(a, value, x);
      assert x in c;
    }
  }

  /** ... and any model of what is left, overridden by value, is a model of the input. */
  lemma ResidualComplete(f: seq<seq<int>>, n: nat, value: seq<int>, a: Assignment)
    requires ValueOk(n, value) && WellFormed(f, n) && Models(a, Residual(f, n, value))
    ensures Models(Override(a, value), f)
  {
    var b := Override(a, value);
    forall c | c in f ensures Satisfies(b, c) {
      var ci :| 0 <= ci < |f| && f[ci] == c;
      if IsTrue(c, n, value) {
        var k :| 0 <= k < |c| && LitValue(c[k], value) == 1;
        assert c[k] in c && Holds(b, c[k]);
      } else {
        ResidualHas(f, n, value, ci);
        var x :| x in Remaining(c, n, value) && Holds(a, x);
        assert x in c && Holds(b, x);
      }
    }
  }

  /** A formula on which the preprocessor has nothing left to do. */
  ghost predicate Reduced(f: seq<seq<int>>) {
    && (forall i :: 0 <= i < |f| ==> |f[i]| >= 2)
    && forall i, l :: 0 <= i < |f| && l in f[i] ==> exists j :: 0 <= j < |f| && -l in f[j]
  }

  lemma {:induction false} TwoRemain(c: seq<int>, n: nat, value: seq<int>, i: nat, j: nat)
    requires |value| == n + 1 && forall k :: 0 <= k < |c| ==> VarOf(c[k]) <= n
    requires i < j < |c| && LitValue(c[i], value) == 0 && LitValue(c[j], value) == 0
    ensures |Remaining(c, n, value)| >= 2
  {
    var m := |c| - 1;
    if j == m {
      assert c[..m][i] == c[i] && c[i] in c[..m];
    } else {
      TwoRemain(c[..m], n, value, i, j);
    }
  }

  /** At a fixpoint the residual formula has no empty clause, no unit clause and no pure literal. */
  lemma FixpointReduced(f: seq<seq<int>>, n: nat, cls: seq<ClauseRec>, watchers: seq<seq<WatchRef>>,
                        value: seq<int>, trail: seq<int>, litFalse: int)
    requires Invariant(f, n, |f|, cls, watchers, value, trail, [], litFalse, [])
    requires NoEmptyClause(f) && NoPure(f, n, value)
    ensures Reduced(Residual(f, n, value))
  {
    var g := Residual(f, n, value);
    forall i | 0 <= i < |g| ensures |g[i]| >= 2 {
      var ci := ResidualOrigin(f, n, value, g[i]);
      OpenClauseWatches(f, n, cls, watchers, value, trail, litFalse, ci);
      var p, p' := cls[ci].pos0, cls[ci].pos1;
      TwoRemain(f[ci], n, value, if p < p' then p else p', if p < p' then p' else p);
    }
    forall i, l | 0 <= i < |g| && l in g[i] ensures exists j :: 0 <= j < |g| && -l in g[j] {
      var ci := ResidualOrigin(f, n, value, g[i]);
      assert !ClauseTrue(f[ci], n, value);
      assert Occurs(f, n, |f|, value, l);
      assert Occurs(f, n, |f|, value, -l);
      var cj :| 0 <= cj < |f| && -l in f[cj] && !ClauseTrue(f[cj], n, value);
      ResidualHas(f, n, value, cj);
      var j :| 0 <= j < |g| && g[j] == Remaining(f[cj], n, value);
    }
  }

  /** With an empty queue, a clause that is not true watches two different unassigned literals. */
  lemma OpenClauseWatches(f: seq<seq<int>>, n: nat, cls: seq<ClauseRec>, watchers: seq<seq<WatchRef>>,
                          value: seq<int>, trail: seq<int>, litFalse: int, ci: nat)
    requires Invariant(f, n, |f|, cls, watchers, value, trail, [], litFalse, [])
    requires ci < |f| && f[ci] != [] && !IsTrue(f[ci], n, value)
    ensures cls[ci].pos0 < |f[ci]| && cls[ci].pos1 < |f[ci]| && cls[ci].pos0 != cls[ci].pos1
    ensures LitValue(f[ci][cls[ci].pos0], value) == 0 && LitValue(f[ci][cls[ci].pos1], value) == 0
  {
    assert !cls[ci].satisfied;
    assert Slot(f, |f|, ci, 0);
    assert Watched(f, |f|, cls, ci, 0) == f[ci][cls[ci].pos0];
    assert Watched(f, |f|, cls, ci, 1) == f[ci][cls[ci].pos1];
    if |f[ci]| >= 2 {
      assert Slot(f, |f|, ci, 1);
    }
  }

  // --------------------------------------------------------- initial watches

  function File(watchers: seq<seq<WatchRef>>, l: int, ref: WatchRef): (ws: seq<seq<WatchRef>>)
    requires LitIndex(l) < |watchers|
    ensures |ws| == |watchers|
  {
    watchers[LitIndex(l) := watchers[LitIndex(l)] + [ref]]
  }

  /** Filing clause m under its first literal, and under its second one if it has two. */
  lemma FilingNextClause(f: seq<seq<int>>, n: nat, m: nat, cls: seq<ClauseRec>, watchers: seq<seq<WatchRef>>, r: ClauseRec)
    requires Filed(f, n, m, cls, watchers) && m < |f| && f[m] != []
    requires r.pos0 == 0 && r.pos1 == if |f[m]| == 1 then 0 else 1
    ensures LitIndex(f[m][0]) < |watchers| && (|f[m]| >= 2 ==> LitIndex(f[m][1]) < |watchers|)
    ensures var w0 := File(watchers, f[m][0], WatchRef(m, 0));
      Filed(f, n, m + 1, cls[m := r], if |f[m]| == 1 then w0 else File(w0, f[m][1], WatchRef(m, 1)))
  {
    var cls' := cls[m := r];
    assert ClausesOk(f, m + 1, cls');
    forall ci: nat, w: nat | ci < m
      ensures Watched(f, m + 1, cls', ci, w) == Watched(f, m, cls, ci, w)
    {
    }
    var x := LitIndex(f[m][0]);
    var w0 := File(watchers, f[m][0], WatchRef(m, 0));
    assert w0[x][|watchers[x]|] == WatchRef(m, 0);
    assert WatchRef(m, 0) !in watchers[x];
    if |f[m]| >= 2 {
      var y := LitIndex(f[m][1]);
      var w1 := File(w0, f[m][1], WatchRef(m, 1));
      assert w1[y][|w0[y]|] == WatchRef(m, 1);
      assert WatchRef(m, 1) !in watchers[y];
      assert WatchRef(m, 1) !in w0[y];
      assert NoDuplicates(w0[y]);
      assert Watched(f, m + 1, cls', m, 1) == f[m][1];
    }
  }

  /** While nothing has been dequeued there is nothing to settle. */
  lemma QueuedSettles(f: seq<seq<int>>, n: nat, m: nat, cls: seq<ClauseRec>, value: seq<int>, trail: seq<int>,
                      litFalse: int, rest: seq<WatchRef>)
    requires ClausesOk(f, m, cls) && WellFormed(f, n) && TrailOk(n, value, trail, trail)
    ensures Settled(f, n, m, cls, value, trail, litFalse, rest)
  {
    forall l | 1 <= VarOf(l) <= n && LitValue(l, value) == -1 ensures -l in trail {
      var v: int := VarOf(l);
      assert v in trail || -v in trail;
    }
  }

  lemma OccursStep(f: seq<seq<int>>, n: nat, ci: nat, cls: seq<ClauseRec>, watchers: seq<seq<WatchRef>>,
                   value: seq<int>, trail: seq<int>, q: seq<int>)
    requires Invariant(f, n, |f|, cls, watchers, value, trail, q, 0, []) && ci < |f|
    ensures |value| == n + 1 && ci < |cls|
    ensures cls[ci].satisfied ==> ClauseTrue(f[ci], n, value)
    ensures forall l :: 1 <= VarOf(l) <= n ==>
      (Occurs(f, n, ci + 1, value, l) <==> Occurs(f, n, ci, value, l) || OccursIn(f[ci], n, value, l))
  {
    assert |value| == n + 1 && ci < |cls|;
    hide TrailOk;
    hide Filed;
    hide Settled;
    hide Preserved;
  }

  lemma FlaggedTrue(f: seq<seq<int>>, n: nat, cls: seq<ClauseRec>, watchers: seq<seq<WatchRef>>,
                    value: seq<int>, trail: seq<int>, q: seq<int>, ci: nat)
    requires Invariant(f, n, |f|, cls, watchers, value, trail, q, 0, []) && ci < |f|
    ensures |value| == n + 1 && WellFormed(f, n) && ci < |cls| && (cls[ci].satisfied ==> IsTrue(f[ci], n, value))
  {
    assert |value| == n + 1 && ci < |cls|;
    hide TrailOk;
    hide Filed;
    hide Settled;
    hide Preserved;
  }

  lemma ResidualStep(f: seq<seq<int>>, n: nat, value: seq<int>, ci: nat)
    requires |value| == n + 1 && WellFormed(f, n) && ci < |f|
    ensures Residual(f[..ci + 1], n, value) ==
      Residual(f[..ci], n, value) + (if IsTrue(f[ci], n, value) then [] else [Remaining(f[ci], n, value)])
    ensures forall k :: 0 <= k < |Remaining(f[ci], n, value)| ==> 1 <= VarOf(Remaining(f[ci], n, value)[k]) <= n
  {
    assert f[..ci + 1][..ci] == f[..ci];
    forall k | 0 <= k < |Remaining(f[ci], n, value)| ensures 1 <= VarOf(Remaining(f[ci], n, value)[k]) <= n {
      assert Remaining(f[ci], n, value)[k] in f[ci];
    }
  }

  /** Appending a clause to the flat layout appends it to the list of clauses. */
  lemma AppendClause(out: Cnf, c: seq<int>)
    requires out.Valid() && forall k :: 0 <= k < |c| ==> 1 <= VarOf(c[k]) <= out.numVars
    ensures var out' := Cnf(out.numVars, out.numClauses + 1, out.lits + c, out.offsets + [|out.lits + c|]);
      out'.Valid() && out'.Clauses() == out.Clauses() + [c]
  {
    var out' := Cnf(out.numVars, out.numClauses + 1, out.lits + c, out.offsets + [|out.lits + c|]);
    assert out'.Valid();
    forall i | 0 <= i < out.numClauses ensures out'.Clause(i) == out.Clause(i) {
      assert out.offsets[i + 1] <= out.offsets[out.numClauses];
    }
    assert out'.Clause(out.numClauses) == c;
    assert out'.Clauses() == out.Clauses() + [c];
  }

  lemma AppendNonEmpty(f: seq<seq<int>>, c: seq<int>)
    requires NoEmptyClause(f) && c != []
    ensures NoEmptyClause(f + [c])
  {
  }

  /** An open clause with nothing remaining makes the whole residual contain the empty clause. */
  lemma EmptyResidual(f: seq<seq<int>>, n: nat, value: seq<int>, ci: nat)
    requires |value| == n + 1 && WellFormed(f, n) && ci < |f|
    requires !IsTrue(f[ci], n, value) && Remaining(f[ci], n, value) == []
    ensures !NoEmptyClause(Residual(f, n, value))
  {
    ResidualHas(f, n, value, ci);
  }

  // ------------------------------------------------------------------ engine

  class Engine {
    const input: Cnf
    var cls: seq<ClauseRec>
    var watchers: seq<seq<WatchRef>>
    var value: seq<int>
    var trail: seq<int>
    var q: seq<int>

    ghost function F(): seq<seq<int>>
      requires input.Valid()
    {
      input.Clauses()
    }

    /** The invariant of the first m clauses, up to the unvisited references in rest. */
    ghost predicate ValidBut(m: nat, litFalse: int, rest: seq<WatchRef>)
      reads this
    {
      && input.Valid()
      && NoEmptyClause(F())
      && m <= |F()| <= |cls|
      && (forall ci :: 0 <= ci < m ==> cls[ci].begin == input.offsets[ci] && cls[ci].end == input.offsets[ci + 1])
      && Invariant(F(), input.numVars, m, cls, watchers, value, trail, q, litFalse, rest)
    }

    ghost predicate Valid()
      reads this
    {
      input.Valid() && ValidBut(|F()|, 0, [])
    }

    constructor (cnf: Cnf)
      requires cnf.Valid() && NoEmptyClause(cnf.Clauses())
      ensures Valid() && input == cnf
      ensures (forall i :: 0 <= i < |F()| ==> |F()[i]| >= 2) ==> trail == [] && q == []
    {
      input := cnf;
      value := seq(cnf.numVars + 1, _ => 0);
      watchers := seq(2 * (cnf.numVars + 1), _ => []);
      cls := seq(cnf.numClauses, _ => ClauseRec(0, 0, 0, 0, false));
      trail, q := [], [];
      new;
      AllUnassigned(value);
      ClausesWellFormed(input);
      assert Preserved(F(), value) by {
        if Satisfiable(F()) {
          var a: Assignment :| Models(a, F());
          assert Extends(a, value);
        }
      }
      BuildWatches();
    }

    method BuildWatches()
      requires ValidBut(0, 0, []) && trail == [] && q == []
      modifies this
      ensures Valid()
      ensures (forall i :: 0 <= i < |F()| ==> |F()[i]| >= 2) ==> trail == [] && q == []
    {
      for ci := 0 to input.numClauses
        invariant ValidBut(ci, 0, [])
        invariant q == trail
        invariant (forall i :: 0 <= i < |F()| ==> |F()[i]| >= 2) ==> trail == []
      {
        BuildClause(ci);
      }
    }

    method BuildClause(ci: nat)
      requires ValidBut(ci, 0, []) && ci < |F()| && q == trail
      modifies this
      ensures ValidBut(ci + 1, 0, []) && q == trail
      ensures |F()[ci]| >= 2 ==> trail == old(trail)
    {
      hide Invariant;
      hide TrailOk;
      hide Cnf.Clauses;
      hide Cnf.Clause;
      hide WellFormed;
      hide File;
      hide Assign;
      hide LitIndex;
      ghost var f := F();
      ClauseLayout(input, ci);
      InvariantParts(f, input.numVars, ci, cls, watchers, value, trail, q, 0, []);
      var b, e := input.offsets[ci], input.offsets[ci + 1];
      var len := e - b;
      assert f[ci] != [];
      var lit0 := input.lits[b];
      assert lit0 == f[ci][0];
      if len == 1 {
        UnitBuildStep(f, input.numVars, ci, cls, ClauseRec(b, e, 0, 0, false), watchers, value, trail);
        cls := cls[ci := ClauseRec(b, e, 0, 0, false)];
        watchers := File(watchers, lit0, WatchRef(ci, 0));
        var _ := Enqueue(lit0);
      } else {
        LongBuildStep(f, input.numVars, ci, cls, ClauseRec(b, e, 0, 1, false), watchers, value, trail);
        cls := cls[ci := ClauseRec(b, e, 0, 1, false)];
        var lit1 := input.lits[b + 1];
        assert lit1 == f[ci][1];
        watchers := File(watchers, lit0, WatchRef(ci, 0));
        watchers := File(watchers, lit1, WatchRef(ci, 1));
      }
    }

    /** The first unwatched literal of clause ci that is not false; the clause length if there is none. */
    method FindReplacement(ci: nat, posF: nat, posO: nat) returns (k: nat)
      requires input.Valid() && ci < |F()| && ci < |cls| && |value| == input.numVars + 1
      requires cls[ci].begin == input.offsets[ci] && cls[ci].end == input.offsets[ci + 1]
      ensures k <= |F()[ci]| && forall j :: 0 <= j < |F()[ci]| ==> VarOf(F()[ci][j]) <= input.numVars
      ensures forall j :: 0 <= j < k ==> j == posF || j == posO || LitValue(F()[ci][j], value) == -1
      ensures k < |F()[ci]| ==> k != posF && k != posO && LitValue(F()[ci][k], value) != -1
    {
      ClausesWellFormed(input);
      var begin, len := cls[ci].begin, cls[ci].end - cls[ci].begin;
      k := 0;
      while k < len
        invariant 0 <= k <= len
        invariant forall j :: 0 <= j < k ==> j == posF || j == posO || LitValue(F()[ci][j], value) == -1
      {
        if k != posF && k != posO && LitValue(input.lits[begin + k], value) != -1 {
          return;
        }
        k := k + 1;
      }
    }

    /** Visits the reference (ci, which) found at entry i of the watch list of litFalse. */
    method ProcessWatchOnFalsified(ci: nat, which: nat, ghost litFalse: int, ghost i: nat) returns (ok: bool, ghost moved: bool)
      requires input.Valid() && LitIndex(litFalse) < |watchers| && i < |watchers[LitIndex(litFalse)]|
      requires ValidBut(|F()|, litFalse, watchers[LitIndex(litFalse)][i..])
      requires Visiting(F(), input.numVars, cls, watchers, value, q, litFalse, i, ci, which)
      modifies this
      ensures !ok ==> !Satisfiable(F())
      ensures ok && !moved ==> watchers == old(watchers)
      ensures ok && !moved ==> ValidBut(|F()|, litFalse, watchers[LitIndex(litFalse)][i + 1..])
      ensures ok && !moved ==> Visiting(F(), input.numVars, cls, watchers, value, q, litFalse, i, ci, which)
      ensures ok && !moved ==> ci < |F()| && cls[ci].Pos(which) < |F()[ci]| && F()[ci][cls[ci].Pos(which)] == litFalse
      ensures ok && moved ==> value == old(value) && trail == old(trail) && q == old(q)
      ensures ok && moved ==> exists k :: MovedTo(F(), input.numVars, old(cls), old(watchers), cls, watchers, value, ci, which, k)
      ensures old(trail) <= trail && (|trail| == |old(trail)| ==> value == old(value)) && |q| - |trail| == old(|q| - |trail|)
      ensures |q| <= |trail| <= input.numVars + 1
    {
      hide Invariant;
      hide TrailOk;
      hide Cnf.Clauses;
      hide Cnf.Clause;
      hide Preserved;
      hide Filed;
      ghost var f := F();
      ClausesWellFormed(input);
      VisitFacts(f, input.numVars, cls, watchers, value, trail, q, litFalse, i, ci, which);
      InvariantParts(f, input.numVars, |f|, cls, watchers, value, trail, q, litFalse, watchers[LitIndex(litFalse)][i..]);
      var c := cls[ci];
      if c.satisfied {
        SatisfiedSettles(f, input.numVars, |f|, cls, watchers, value, trail, q, litFalse, watchers[LitIndex(litFalse)][i..], ci, which);
        assert cls[ci := cls[ci].(satisfied := true)] == cls;
        return true, false;
      }
      var len := c.end - c.begin;
      assert ci < input.numClauses;
      assert c.begin == input.offsets[ci] && c.end == input.offsets[ci + 1];
      assert |f[ci]| == input.offsets[ci + 1] - input.offsets[ci];
      assert len == |f[ci]|;
      var posF, posO := c.Pos(which), c.Pos(1 - which);
      var litO := input.lits[c.begin + posO];
      assert litO == f[ci][posO];
      if LitValue(litO, value) == 1 {
        SatisfiedSettles(f, input.numVars, |f|, cls, watchers, value, trail, q, litFalse, watchers[LitIndex(litFalse)][i..], ci, which);
        cls := cls[ci := c.(satisfied := true)];
        return true, false;
      }
      var k := FindReplacement(ci, posF, posO);
      if k < len {
        var litK := input.lits[c.begin + k];
        assert litK == f[ci][k];
        cls := cls[ci := c.WithPos(which, k)];
        watchers := File(watchers, litK, WatchRef(ci, which));
        assert MovedTo(f, input.numVars, old(cls), old(watchers), cls, watchers, value, ci, which, k);
        return true, true;
      }
      ForcedVisit(f, input.numVars, cls, watchers, value, trail, q, litFalse, i, ci, which, litO);
      if LitValue(litO, value) == 0 {
        ok := Enqueue(litO);
        return ok, false;
      }
      // A true partner was dealt with above, so both watched literals are false here.
      return false, false;
    }

    /** Walks the watch list of each dequeued literal's negation; false means a conflict. */
    method Propagate() returns (ok: bool)
      requires Valid()
      modifies this
      ensures !ok ==> !Satisfiable(F())
      ensures ok ==> Valid() && q == []
      ensures old(trail) <= trail && (|trail| == |old(trail)| ==> value == old(value))
      ensures old(q) == [] ==> ok && trail == old(trail)
    {
      hide Invariant;
      InvariantParts(F(), input.numVars, |F()|, cls, watchers, value, trail, q, 0, []);
      while q != []
        invariant Valid()
        invariant old(trail) <= trail && (|trail| == |old(trail)| ==> value == old(value))
        invariant old(q) == [] ==> q == [] && trail == old(trail)
        invariant |q| <= |trail| <= input.numVars + 1
        decreases input.numVars + 1 - |trail| + |q|
      {
        var litFalse := -q[0];
        PopKeeps(F(), input.numVars, cls, watchers, value, trail, q);
        q := q[1..];
        ok := WalkWatchers(litFalse);
        if !ok {
          return;
        }
      }
      return true;
    }

    /** Walks the whole watch list of a literal that has just become false. */
    method WalkWatchers(litFalse: int) returns (ok: bool)
      requires input.Valid() && LitIndex(litFalse) < |watchers| && 1 <= VarOf(litFalse) <= input.numVars < |value|
      requires ValidBut(|F()|, litFalse, watchers[LitIndex(litFalse)]) && LitValue(litFalse, value) == -1
      modifies this
      ensures !ok ==> !Satisfiable(F())
      ensures ok ==> Valid()
      ensures old(trail) <= trail && (|trail| == |old(trail)| ==> value == old(value)) && |q| - |trail| == old(|q| - |trail|)
      ensures |q| <= |trail| <= input.numVars + 1
    {
      hide Invariant;
      hide TrailOk;
      ghost var n := input.numVars;
      var i: nat := 0;
      assert watchers[LitIndex(litFalse)] == watchers[LitIndex(litFalse)][0..];
      InvariantParts(F(), n, |F()|, cls, watchers, value, trail, q, litFalse, watchers[LitIndex(litFalse)][i..]);
      while i < |watchers[LitIndex(litFalse)]|
        invariant LitIndex(litFalse) < |watchers| && i <= |watchers[LitIndex(litFalse)]|
        invariant ValidBut(|F()|, litFalse, watchers[LitIndex(litFalse)][i..])
        invariant n < |value| && LitValue(litFalse, value) == -1
        invariant old(trail) <= trail && (|trail| == |old(trail)| ==> value == old(value)) && |q| - |trail| == old(|q| - |trail|)
        invariant |q| <= |trail| <= n + 1
        decreases |watchers[LitIndex(litFalse)]| - i
      {
        ok, i := VisitEntry(litFalse, i);
        if !ok {
          return;
        }
      }
      assert watchers[LitIndex(litFalse)][i..] == [];
      WalkDone(F(), n, |F()|, cls, watchers, value, trail, q, litFalse);
      return true;
    }

    /** Visits entry i of the watch list of litFalse; a moved watch is swapped with the last entry and popped. */
    method VisitEntry(litFalse: int, i: nat) returns (ok: bool, next: nat)
      requires input.Valid() && LitIndex(litFalse) < |watchers| && i < |watchers[LitIndex(litFalse)]|
      requires ValidBut(|F()|, litFalse, watchers[LitIndex(litFalse)][i..])
      requires 1 <= VarOf(litFalse) <= input.numVars < |value| && LitValue(litFalse, value) == -1
      modifies this
      ensures !ok ==> !Satisfiable(F())
      ensures ok ==> |watchers| == |old(watchers)| && next <= |watchers[LitIndex(litFalse)]|
      ensures ok ==> ValidBut(|F()|, litFalse, watchers[LitIndex(litFalse)][next..])
      ensures ok ==> |watchers[LitIndex(litFalse)]| - next < old(|watchers[LitIndex(litFalse)]|) - i
      ensures ok ==> input.numVars < |value| && LitValue(litFalse, value) == -1
      ensures old(trail) <= trail && (|trail| == |old(trail)| ==> value == old(value)) && |q| - |trail| == old(|q| - |trail|)
      ensures |q| <= |trail| <= input.numVars + 1
    {
      hide Invariant;
      hide TrailOk;
      hide Cnf.Clauses;
      hide Cnf.Clause;
      ghost var n, f := input.numVars, F();
      var wr := watchers[LitIndex(litFalse)][i];
      ghost var cls0, watchers0 := cls, watchers;
      ClausesWellFormed(input);
      VisitFacts(f, n, cls, watchers, value, trail, q, litFalse, i, wr.clause, wr.which);
      ghost var moved;
      ok, moved := ProcessWatchOnFalsified(wr.clause, wr.which, litFalse, i);
      if !ok {
        return ok, i;
      }
      if moved {
        MovedSettlesAt(f, n, cls0, watchers0, cls, watchers, value, trail, q, litFalse, wr.clause, wr.which, i);
      }
      var c := cls[wr.clause];
      assert c.begin == input.offsets[wr.clause];
      var nowLit := input.lits[c.begin + c.Pos(wr.which)];
      assert nowLit == f[wr.clause][c.Pos(wr.which)];
      if nowLit != litFalse {
        watchers := watchers[LitIndex(litFalse) := SwapPop(watchers[LitIndex(litFalse)], i)];
        next := i;
      } else {
        next := i + 1;
      }
    }

    /** Makes every literal true whose negation no longer occurs; returns how many were found. */
    method PureLiteralElimination() returns (newlyAssigned: nat)
      requires Valid()
      modifies this
      ensures Valid() && old(trail) <= trail
      ensures newlyAssigned == |trail| - |old(trail)| && (newlyAssigned == 0 ==> value == old(value) && q == old(q))
      ensures newlyAssigned == 0 <==> NoPure(F(), input.numVars, old(value))
    {
      hide Invariant;
      hide TrailOk;
      hide Occurs;
      hide Cnf.Clauses;
      hide Cnf.Clause;
      ghost var n := input.numVars;
      InvariantParts(F(), n, |F()|, cls, watchers, value, trail, q, 0, []);
      var occ := CountOccurrences();
      ghost var before := value;
      newlyAssigned := 0;
      for v: int := 1 to input.numVars + 1
        invariant Valid() && old(trail) <= trail && |value| == n + 1
        invariant Grows(n, before, value) && forall u :: v <= u <= n ==> value[u] == before[u]
        invariant newlyAssigned == |trail| - |old(trail)|
        invariant newlyAssigned == 0 ==> value == before && q == old(q)
        invariant newlyAssigned == 0 <==> forall u :: 1 <= u < v && before[u] == 0 ==>
          (Occurs(F(), n, |F()|, before, u) <==> Occurs(F(), n, |F()|, before, -u))
      {
        if value[v] == 0 {
          var hasPos, hasNeg := occ[LitIndex(v)] > 0, occ[LitIndex(-v)] > 0;
          if hasPos && !hasNeg {
            EnqueuePure(v, before);
            newlyAssigned := newlyAssigned + 1;
          } else if !hasPos && hasNeg {
            EnqueuePure(-v, before);
            newlyAssigned := newlyAssigned + 1;
          }
        }
      }
    }

    method EnqueuePure(l: int, ghost before: seq<int>)
      requires Valid() && 1 <= VarOf(l) <= input.numVars < |value| && LitValue(l, value) == 0
      requires ValueOk(input.numVars, before) && Grows(input.numVars, before, value) && !Occurs(F(), input.numVars, |F()|, before, -l)
      modifies `value, `trail, `q
      ensures Valid() && trail == old(trail) + [l] && value == Assign(old(value), l) && |value| == input.numVars + 1
    {
      InvariantParts(F(), input.numVars, |F()|, cls, watchers, value, trail, q, 0, []);
      assert ValueOk(input.numVars, value) && Preserved(F(), value) && WellFormed(F(), input.numVars);
      hide Invariant;
      hide TrailOk;
      hide Preserved;
      PurePreserves(F(), input.numVars, before, value, l);
      EnqueueKeeps(F(), input.numVars, |F()|, cls, watchers, value, trail, q, 0, [], l);
      var _ := Enqueue(l);
    }

    /** Counts the unassigned literals of the clauses that are not yet true, and flags the others. */
    method CountOccurrences() returns (occ: seq<nat>)
      requires Valid()
      modifies `cls
      ensures Valid() && |value| == input.numVars + 1 && ValueOk(input.numVars, value)
      ensures |occ| == 2 * (input.numVars + 1)
      ensures forall l :: 1 <= VarOf(l) <= input.numVars ==>
        LitIndex(l) < |occ| && (occ[LitIndex(l)] > 0 <==> Occurs(F(), input.numVars, |F()|, value, l))
    {
      hide Invariant;
      InvariantParts(F(), input.numVars, |F()|, cls, watchers, value, trail, q, 0, []);
      ClausesWellFormed(input);
      occ := seq(2 * (input.numVars + 1), _ => 0);
      for ci := 0 to input.numClauses
        invariant Valid() && |occ| == 2 * (input.numVars + 1)
        invariant forall l :: 1 <= VarOf(l) <= input.numVars ==>
          LitIndex(l) < |occ| && (occ[LitIndex(l)] > 0 <==> Occurs(F(), input.numVars, ci, value, l))
      {
        OccursStep(F(), input.numVars, ci, cls, watchers, value, trail, q);
        if !cls[ci].satisfied {
          occ := ScanClause(ci, occ);
        }
      }
    }

    method ScanClause(ci: nat, occ: seq<nat>) returns (occ': seq<nat>)
      requires Valid() && ci < |F()| && |occ| == 2 * (input.numVars + 1) && |value| == input.numVars + 1
      modifies `cls
      ensures Valid() && |occ'| == |occ|
      ensures forall l :: 1 <= VarOf(l) <= input.numVars ==> LitIndex(l) < |occ|
      ensures forall l :: 1 <= VarOf(l) <= input.numVars ==>
        (occ'[LitIndex(l)] > 0 <==> occ[LitIndex(l)] > 0 || OccursIn(F()[ci], input.numVars, value, l))
    {
      hide Invariant;
      hide Cnf.Clauses;
      hide Cnf.Clause;
      ghost var n, f := input.numVars, F();
      ClauseLayout(input, ci);
      var begin, end := cls[ci].begin, cls[ci].end;
      var t := begin;
      while t < end
        invariant begin <= t <= end
        invariant forall k :: 0 <= k < t - begin ==> LitValue(f[ci][k], value) != 1
      {
        if LitValue(input.lits[t], value) == 1 {
          assert f[ci][t - begin] in f[ci];
          FlagTrueClause(f, n, |f|, cls, watchers, value, trail, q, 0, [], ci);
          cls := cls[ci := cls[ci].(satisfied := true)];
          return occ;
        }
        t := t + 1;
      }
      occ' := CountClause(ci, occ);
      assert !ClauseTrue(f[ci], n, value);
    }

    method CountClause(ci: nat, occ: seq<nat>) returns (occ': seq<nat>)
      requires input.Valid() && ci < |F()| && ci < |cls| && |occ| == 2 * (input.numVars + 1) && |value| == input.numVars + 1
      requires cls[ci].begin == input.offsets[ci] && cls[ci].end == input.offsets[ci + 1]
      ensures |occ'| == |occ|
      ensures forall l :: 1 <= VarOf(l) <= input.numVars ==> LitIndex(l) < |occ|
      ensures forall l :: 1 <= VarOf(l) <= input.numVars ==>
        (occ'[LitIndex(l)] > 0 <==> occ[LitIndex(l)] > 0 || (l in F()[ci] && LitValue(l, value) == 0))
    {
      hide Cnf.Clauses;
      hide Cnf.Clause;
      ghost var n, c := input.numVars, F()[ci];
      ClauseLayout(input, ci);
      var begin, end := cls[ci].begin, cls[ci].end;
      occ' := occ;
      var t := begin;
      while t < end
        invariant begin <= t <= end && |occ'| == |occ|
        invariant forall l :: 1 <= VarOf(l) <= n ==>
          (occ'[LitIndex(l)] > 0 <==> occ[LitIndex(l)] > 0 || (l in c[..t - begin] && LitValue(l, value) == 0))
      {
        var lit := input.lits[t];
        assert lit == c[t - begin] && c[..t + 1 - begin] == c[..t - begin] + [lit];
        if LitValue(lit, value) == 0 {
          occ' := occ'[LitIndex(lit) := occ'[LitIndex(lit)] + 1];
        }
        t := t + 1;
      }
      assert c[..end - begin] == c;
    }

    /** Alternates pure-literal elimination and propagation until neither assigns anything. */
    method ToFixpoint() returns (ok: bool)
      requires Valid()
      modifies this
      ensures !ok ==> !Satisfiable(F())
      ensures ok ==> Valid() && q == [] && |value| == input.numVars + 1 && NoPure(F(), input.numVars, value)
      ensures old(trail) == [] && old(q) == [] && NoPure(F(), input.numVars, old(value)) ==> ok && trail == []
    {
      hide Invariant;
      hide TrailOk;
      hide NoPure;
      InvariantParts(F(), input.numVars, |F()|, cls, watchers, value, trail, q, 0, []);
      var assignedBefore := 0;
      while true
        invariant Valid() && assignedBefore <= |trail| <= input.numVars + 1 && |q| <= |trail| && |value| == input.numVars + 1
        invariant assignedBefore == 0 || assignedBefore == |trail|
        invariant old(trail) == [] && old(q) == [] && NoPure(F(), input.numVars, old(value)) ==> trail == [] && q == [] && value == old(value)
        decreases input.numVars + 1 - |trail|, if |trail| == assignedBefore then 0 else 1
      {
        ghost var n0 := |trail|;
        var numPures := PureLiteralElimination();
        ok := Propagate();
        if !ok {
          return;
        }
        InvariantParts(F(), input.numVars, |F()|, cls, watchers, value, trail, q, 0, []);
        if |trail| == assignedBefore && numPures == 0 {
          return true;
        }
        assignedBefore := |trail|;
      }
    }

    /** Writes out the clauses that are not true, without their false literals; false if one of them is empty. */
    method Rebuild() returns (ok: bool, out: Cnf)
      requires Valid() && |value| == input.numVars + 1
      ensures ok <==> NoEmptyClause(Residual(F(), input.numVars, value))
      ensures ok ==> out.Valid() && out.numVars == input.numVars && out.Clauses() == Residual(F(), input.numVars, value)
    {
      hide Invariant;
      ghost var n, f := input.numVars, F();
      ClausesWellFormed(input);
      hide WellFormed;
      out := Cnf(input.numVars, 0, [], [0]);
      assert out.Clauses() == [] && Residual(f[..0], n, value) == [] && NoEmptyClause([]);
      hide Residual;
      hide IsTrue;
      hide Remaining;
      hide Cnf.Clauses;
      hide Cnf.Clause;
      hide NoEmptyClause;
      ok := true;
      for ci := 0 to input.numClauses
        invariant Rebuilt(out, f, ci, n, value)
      {
        ok, out := RebuildClause(out, ci);
        if !ok {
          return;
        }
      }
      assert f[..input.numClauses] == f;
    }

    /** One clause of rebuild: a true one is left out, of any other the open literals are appended. */
    method RebuildClause(out: Cnf, ci: nat) returns (ok: bool, out': Cnf)
      requires Valid() && ci < |F()| && |value| == input.numVars + 1 && WellFormed(F(), input.numVars)
      requires Rebuilt(out, F(), ci, input.numVars, value)
      ensures !ok ==> !NoEmptyClause(Residual(F(), input.numVars, value))
      ensures ok ==> Rebuilt(out', F(), ci + 1, input.numVars, value)
    {
      hide Invariant;
      hide WellFormed;
      hide Residual;
      hide IsTrue;
      hide Remaining;
      hide Cnf.Clauses;
      hide Cnf.Clause;
      hide Cnf.Valid;
      hide NoEmptyClause;
      ResidualStep(F(), input.numVars, value, ci);
      var isTrue := TestTrue(ci);
      if isTrue {
        return true, out;
      }
      var rest := Collect(ci);
      AppendClause(out, rest);
      if rest != [] {
        AppendNonEmpty(out.Clauses(), rest);
      }
      var before := |out.lits|;
      out' := out.(lits := out.lits + rest);
      if |out'.lits| == before {
        assert rest == [];
        EmptyResidual(F(), input.numVars, value, ci);
        return false, out';
      }
      out' := out'.(numClauses := out'.numClauses + 1, offsets := out'.offsets + [|out'.lits|]);
      ok := true;
    }

    /** Whether clause ci is flagged, or has a true literal. */
    method TestTrue(ci: nat) returns (isTrue: bool)
      requires Valid() && ci < |F()| && |value| == input.numVars + 1 && WellFormed(F(), input.numVars)
      ensures isTrue <==> IsTrue(F()[ci], input.numVars, value)
    {
      hide Invariant;
      hide Cnf.Clauses;
      hide Cnf.Clause;
      hide WellFormed;
      ghost var n, c := input.numVars, F()[ci];
      FlaggedTrue(F(), n, cls, watchers, value, trail, q, ci);
      ClauseLayout(input, ci);
      if cls[ci].satisfied {
        return true;
      }
      var begin, end := cls[ci].begin, cls[ci].end;
      var t := begin;
      while t < end
        invariant begin <= t <= end
        invariant forall k :: 0 <= k < t - begin ==> LitValue(c[k], value) != 1
      {
        if LitValue(input.lits[t], value) == 1 {
          assert LitValue(c[t - begin], value) == 1;
          return true;
        }
        t := t + 1;
      }
      return false;
    }

    /** The unassigned literals of clause ci. */
    method Collect(ci: nat) returns (rest: seq<int>)
      requires input.Valid() && ci < |F()| && ci < |cls| && |value| == input.numVars + 1 && WellFormed(F(), input.numVars)
      requires cls[ci].begin == input.offsets[ci] && cls[ci].end == input.offsets[ci + 1]
      ensures rest == Remaining(F()[ci], input.numVars, value)
    {
      hide Cnf.Clauses;
      hide Cnf.Clause;
      hide WellFormed;
      ghost var n, c := input.numVars, F()[ci];
      ClauseLayout(input, ci);
      var begin, end := cls[ci].begin, cls[ci].end;
      rest := [];
      var t := begin;
      while t < end
        invariant begin <= t <= end
        invariant rest == Remaining(c[..t - begin], n, value)
      {
        assert c[..t + 1 - begin][..t - begin] == c[..t - begin];
        if LitValue(input.lits[t], value) == 0 {
          rest := rest + [input.lits[t]];
        }
        t := t + 1;
      }
      assert c[..end - begin] == c;
    }

    method Enqueue(lit: int) returns (ok: bool)
      requires TrailOk(input.numVars, value, trail, q) && 1 <= VarOf(lit) <= input.numVars
      modifies `value, `trail, `q
      ensures TrailOk(input.numVars, value, trail, q)
      ensures ok <==> old(LitValue(lit, value)) != -1
      ensures old(LitValue(lit, value)) == 0 ==>
        value == Assign(old(value), lit) && trail == old(trail) + [lit] && q == old(q) + [lit]
      ensures old(LitValue(lit, value)) != 0 ==> value == old(value) && trail == old(trail) && q == old(q)
      ensures |q| <= |trail| <= input.numVars + 1
    {
      var v := if lit > 0 then lit else -lit;
      var s := if lit > 0 then 1 else -1;
      if value[v] != 0 {
        return value[v] == s;
      }
      EnqueueKeepsTrail(input.numVars, value, trail, q, lit);
      value := value[v := s];
      trail := trail + [lit];
      q := q + [lit];
      return true;
    }
  }

  /** What a visit may assume about the reference it is given. */
  ghost predicate Visiting(f: seq<seq<int>>, n: nat, cls: seq<ClauseRec>, watchers: seq<seq<WatchRef>>,
                           value: seq<int>, q: seq<int>,
                           litFalse: int, i: nat, ci: nat, w: nat)
  {
    && 1 <= VarOf(litFalse) <= n < |value|
    && LitIndex(litFalse) < |watchers|
    && i < |watchers[LitIndex(litFalse)]|
    && watchers[LitIndex(litFalse)][i] == WatchRef(ci, w)
    && LitValue(litFalse, value) == -1
  }

  lemma VisitFacts(f: seq<seq<int>>, n: nat, cls: seq<ClauseRec>, watchers: seq<seq<WatchRef>>, value: seq<int>,
                   trail: seq<int>, q: seq<int>, litFalse: int, i: nat, ci: nat, w: nat)
    requires Visiting(f, n, cls, watchers, value, q, litFalse, i, ci, w)
    requires Invariant(f, n, |f|, cls, watchers, value, trail, q, litFalse, watchers[LitIndex(litFalse)][i..])
    ensures Slot(f, |f|, ci, w) && ClausesOk(f, |f|, cls) && WellFormed(f, n) && TrailOk(n, value, trail, q) && |value| == n + 1
    ensures Watched(f, |f|, cls, ci, w) == litFalse && f[ci][cls[ci].Pos(w)] == litFalse
    ensures Watched(f, |f|, cls, ci, 1 - w) == f[ci][cls[ci].Pos(1 - w)]
    ensures watchers[LitIndex(litFalse)][i..][0] == WatchRef(ci, w) && |watchers| == 2 * (n + 1)
    ensures watchers[LitIndex(litFalse)][i..][1..] == watchers[LitIndex(litFalse)][i + 1..]
  {
    assert watchers[LitIndex(litFalse)][i] in watchers[LitIndex(litFalse)];
    LitIndexInjective(Watched(f, |f|, cls, ci, w), litFalse);
  }

  /** No literal but the two watched ones can be non-false: the partner is forced, or the clause is a conflict. */
  lemma ForcedVisit(f: seq<seq<int>>, n: nat, cls: seq<ClauseRec>, watchers: seq<seq<WatchRef>>, value: seq<int>,
                    trail: seq<int>, q: seq<int>, litFalse: int, i: nat, ci: nat, w: nat, other: int)
    requires Visiting(f, n, cls, watchers, value, q, litFalse, i, ci, w)
    requires Invariant(f, n, |f|, cls, watchers, value, trail, q, litFalse, watchers[LitIndex(litFalse)][i..])
    requires ClausesOk(f, |f|, cls) && ci < |f| && w <= 1 && other == f[ci][cls[ci].Pos(1 - w)] && VarOf(other) <= n
    requires forall k :: 0 <= k < |f[ci]| ==> k == cls[ci].Pos(w) || k == cls[ci].Pos(1 - w) || (VarOf(f[ci][k]) <= n && LitValue(f[ci][k], value) == -1)
    ensures LitValue(other, value) == -1 ==> !Satisfiable(f)
    ensures LitValue(other, value) == 0 ==> 1 <= VarOf(other) <= n
    ensures LitValue(other, value) == 0 ==>
      Invariant(f, n, |f|, cls, watchers, Assign(value, other), trail + [other], q + [other], litFalse, watchers[LitIndex(litFalse)][i + 1..])
  {
    VisitFacts(f, n, cls, watchers, value, trail, q, litFalse, i, ci, w);
    assert Preserved(f, value) && ValueOk(n, value) && 1 <= VarOf(other);
    hide Invariant;
    hide TrailOk;
    hide Preserved;
    hide ClausesOk;
    if LitValue(other, value) == -1 {
      ConflictRefutes(f, n, value, ci);
    } else if LitValue(other, value) == 0 {
      UnitPreserves(f, n, value, ci, other);
      EnqueueKeeps(f, n, |f|, cls, watchers, value, trail, q, litFalse, watchers[LitIndex(litFalse)][i..], other);
      AssignedValues(n, value, other);
      TruePartnerSettles(f, n, |f|, cls, watchers, Assign(value, other), trail + [other], q + [other], litFalse,
                         watchers[LitIndex(litFalse)][i..], ci, w);
    }
  }

  ghost predicate MovedTo(f: seq<seq<int>>, n: nat, cls: seq<ClauseRec>, watchers: seq<seq<WatchRef>>,
                          cls': seq<ClauseRec>, watchers': seq<seq<WatchRef>>, value: seq<int>, ci: nat, w: nat, k: nat)
  {
    && ci < |f| && ci < |cls| && k < |f[ci]| && k != cls[ci].pos0 && k != cls[ci].pos1 && cls[ci].pos0 < |f[ci]| && cls[ci].pos1 < |f[ci]|
    && 1 <= VarOf(f[ci][k]) <= n < |value| && LitIndex(f[ci][k]) < |watchers|
    && LitValue(f[ci][k], value) != -1
    && cls' == cls[ci := cls[ci].WithPos(w, k)]
    && watchers' == File(watchers, f[ci][k], WatchRef(ci, w))
  }

  /** Dequeuing a literal leaves exactly the watch list of its negation to be visited. */
  lemma PopKeeps(f: seq<seq<int>>, n: nat, cls: seq<ClauseRec>, watchers: seq<seq<WatchRef>>, value: seq<int>,
                 trail: seq<int>, q: seq<int>)
    requires Invariant(f, n, |f|, cls, watchers, value, trail, q, 0, []) && q != []
    ensures 1 <= VarOf(-q[0]) <= n < |value| && LitIndex(-q[0]) < |watchers| && LitValue(-q[0], value) == -1
    ensures Invariant(f, n, |f|, cls, watchers, value, trail, q[1..], -q[0], watchers[LitIndex(-q[0])])
  {
    assert q[0] == trail[|trail| - |q|];
    assert q == [q[0]] + q[1..];
  }

  lemma MovedSettlesAt(f: seq<seq<int>>, n: nat, cls: seq<ClauseRec>, watchers: seq<seq<WatchRef>>,
                       cls': seq<ClauseRec>, watchers': seq<seq<WatchRef>>, value: seq<int>,
                       trail: seq<int>, q: seq<int>, litFalse: int, ci: nat, w: nat, i: nat)
    requires Visiting(f, n, cls, watchers, value, q, litFalse, i, ci, w)
    requires Invariant(f, n, |f|, cls, watchers, value, trail, q, litFalse, watchers[LitIndex(litFalse)][i..])
    requires exists k :: MovedTo(f, n, cls, watchers, cls', watchers', value, ci, w, k)
    ensures ci < |f| && ci < |cls'| && cls'[ci].Pos(w) < |f[ci]| && f[ci][cls'[ci].Pos(w)] != litFalse
    ensures |watchers'| == |watchers| && watchers'[LitIndex(litFalse)] == watchers[LitIndex(litFalse)]
    ensures cls'[ci].begin == cls[ci].begin && cls'[ci].end == cls[ci].end && |cls'| == |cls|
    ensures forall j :: 0 <= j < |cls| && j != ci ==> cls'[j] == cls[j]
    ensures var ws := watchers'[LitIndex(litFalse) := SwapPop(watchers[LitIndex(litFalse)], i)];
      Invariant(f, n, |f|, cls', ws, value, trail, q, litFalse, ws[LitIndex(litFalse)][i..])
  {
    var k :| MovedTo(f, n, cls, watchers, cls', watchers', value, ci, w, k);
    VisitFacts(f, n, cls, watchers, value, trail, q, litFalse, i, ci, w);
    MovedSettles(f, n, |f|, cls, watchers, value, trail, q, litFalse, ci, w, k, i);
  }

  /** Loading unit clause m extends the invariant to it: its literal is assigned unless it already was. */
  lemma UnitBuildStep(f: seq<seq<int>>, n: nat, m: nat, cls: seq<ClauseRec>, r: ClauseRec, watchers: seq<seq<WatchRef>>,
                      value: seq<int>, trail: seq<int>)
    requires Invariant(f, n, m, cls, watchers, value, trail, trail, 0, []) && m < |f| && |f[m]| == 1
    requires r.pos0 == 0 && r.pos1 == 0 && !r.satisfied
    ensures LitIndex(f[m][0]) < |watchers| && 1 <= VarOf(f[m][0]) <= n < |value|
    ensures var w := File(watchers, f[m][0], WatchRef(m, 0)); var l := f[m][0];
      if LitValue(l, value) == 0
      then Invariant(f, n, m + 1, cls[m := r], w, Assign(value, l), trail + [l], trail + [l], 0, [])
      else Invariant(f, n, m + 1, cls[m := r], w, value, trail, trail, 0, [])
  {
    FilingNextClause(f, n, m, cls, watchers, r);
    var l := f[m][0];
    if LitValue(l, value) == 0 {
      UnitPreserves(f, n, value, m, l);
      EnqueueKeepsFlags(f, n, m, cls, value, l);
      EnqueueKeepsTrail(n, value, trail, trail, l);
      AssignedValues(n, value, l);
      LoadedInvariant(f, n, m, cls, r, File(watchers, l, WatchRef(m, 0)), Assign(value, l), trail + [l]);
    } else {
      LoadedInvariant(f, n, m, cls, r, File(watchers, l, WatchRef(m, 0)), value, trail);
    }
  }

  /** Loading a longer clause files its first two literals and assigns nothing. */
  lemma LongBuildStep(f: seq<seq<int>>, n: nat, m: nat, cls: seq<ClauseRec>, r: ClauseRec, watchers: seq<seq<WatchRef>>,
                      value: seq<int>, trail: seq<int>)
    requires Invariant(f, n, m, cls, watchers, value, trail, trail, 0, []) && m < |f| && |f[m]| >= 2
    requires r.pos0 == 0 && r.pos1 == 1 && !r.satisfied
    ensures LitIndex(f[m][0]) < |watchers| && LitIndex(f[m][1]) < |watchers|
    ensures Invariant(f, n, m + 1, cls[m := r], File(File(watchers, f[m][0], WatchRef(m, 0)), f[m][1], WatchRef(m, 1)), value, trail, trail, 0, [])
  {
    FilingNextClause(f, n, m, cls, watchers, r);
    LoadedInvariant(f, n, m, cls, r, File(File(watchers, f[m][0], WatchRef(m, 0)), f[m][1], WatchRef(m, 1)), value, trail);
  }

  lemma LoadedInvariant(f: seq<seq<int>>, n: nat, m: nat, cls: seq<ClauseRec>, r: ClauseRec, watchers: seq<seq<WatchRef>>,
                        value: seq<int>, trail: seq<int>)
    requires m < |f| <= |cls| && !r.satisfied && Filed(f, n, m + 1, cls[m := r], watchers) && TrailOk(n, value, trail, trail)
    requires WellFormed(f, n) && ClausesOk(f, m, cls) && FlagsOk(f, n, m, cls, value) && Preserved(f, value)
    requires |f[m]| == 1 ==> LitValue(f[m][0], value) != 0
    ensures Invariant(f, n, m + 1, cls[m := r], watchers, value, trail, trail, 0, [])
  {
    QueuedSettles(f, n, m + 1, cls[m := r], value, trail, 0, []);
  }

  lemma {:induction false} AllUnassigned(value: seq<int>)
    requires forall i :: 0 <= i < |value| ==> value[i] == 0
    ensures Unassigned(value) == |value|
  {
    if value != [] {
      AllUnassigned(value[..|value| - 1]);
    }
  }

  lemma ClauseLayout(cnf: Cnf, i: nat)
    requires cnf.Valid() && i < |cnf.Clauses()|
    ensures |cnf.Clauses()| == cnf.numClauses
    ensures cnf.offsets[i] <= cnf.offsets[i + 1] <= |cnf.lits| && |cnf.Clauses()[i]| == cnf.offsets[i + 1] - cnf.offsets[i]
    ensures forall k :: 0 <= k < |cnf.Clauses()[i]| ==> cnf.Clauses()[i][k] == cnf.lits[cnf.offsets[i] + k]
    ensures forall k :: 0 <= k < |cnf.Clauses()[i]| ==> 1 <= VarOf(cnf.Clauses()[i][k]) <= cnf.numVars
  {
    ClausesWellFormed(cnf);
  }

  lemma ClausesWellFormed(cnf: Cnf)
    requires cnf.Valid()
    ensures |cnf.Clauses()| == cnf.numClauses && WellFormed(cnf.Clauses(), cnf.numVars)
    ensures forall i :: 0 <= i < cnf.numClauses ==> |cnf.Clauses()[i]| == cnf.offsets[i + 1] - cnf.offsets[i]
    ensures forall i, k :: 0 <= i < cnf.numClauses && 0 <= k < |cnf.Clauses()[i]| ==>
      cnf.offsets[i] + k < |cnf.lits| && cnf.Clauses()[i][k] == cnf.lits[cnf.offsets[i] + k]
  {
    var f := cnf.Clauses();
    forall i | 0 <= i < cnf.numClauses
      ensures |f[i]| == cnf.offsets[i + 1] - cnf.offsets[i]
      ensures forall k :: 0 <= k < |f[i]| ==> cnf.offsets[i] + k < |cnf.lits| && f[i][k] == cnf.lits[cnf.offsets[i] + k]
    {
      assert cnf.offsets[i] <= cnf.offsets[i + 1] <= cnf.offsets[cnf.numClauses];
    }
  }

  // ---------------------------------------------------------------- simplify

  lemma EmptyTrail(n: nat, value: seq<int>, q: seq<int>)
    requires TrailOk(n, value, [], q)
    ensures |value| == n + 1 && forall v :: 0 <= v <= n ==> value[v] == 0
  {
    forall v | 0 <= v <= n ensures value[v] == 0 {
      var none: seq<int> := [];
      assert 1 <= v && value[v] != 0 ==> v in none || -v in none;
    }
  }

  /** On a reduced formula with nothing assigned no literal is pure. */
  lemma StartsPureFree(f: seq<seq<int>>, n: nat, cls: seq<ClauseRec>, watchers: seq<seq<WatchRef>>, value: seq<int>, q: seq<int>)
    requires Invariant(f, n, |f|, cls, watchers, value, [], q, 0, []) && Reduced(f)
    ensures |value| == n + 1 && NoPure(f, n, value)
  {
    assert TrailOk(n, value, [], q) && WellFormed(f, n);
    hide Invariant;
    hide Reduced;
    hide Occurs;
    EmptyTrail(n, value, q);
    hide TrailOk;
    hide WellFormed;
    forall v | 1 <= v <= n ensures Occurs(f, n, |f|, value, v) <==> Occurs(f, n, |f|, value, -v) {
      OccursMirror(f, n, value, v);
      OccursMirror(f, n, value, -v);
    }
  }

  lemma OccursMirror(f: seq<seq<int>>, n: nat, value: seq<int>, l: int)
    requires |value| == n + 1 && Reduced(f) && (forall v :: 1 <= v <= n ==> value[v] == 0) && 1 <= VarOf(l) <= n && WellFormed(f, n)
    ensures Occurs(f, n, |f|, value, l) ==> Occurs(f, n, |f|, value, -l)
  {
    if Occurs(f, n, |f|, value, l) {
      var j :| 0 <= j < |f| && -l in f[j];
      hide Reduced;
      hide WellFormed;
      assert LitValue(-l, value) == 0;
      assert !ClauseTrue(f[j], n, value);
    }
  }

  /** With nothing assigned the residual formula is the formula itself. */
  lemma {:induction false} NothingAssigned(f: seq<seq<int>>, n: nat, value: seq<int>)
    requires |value| == n + 1 && WellFormed(f, n) && forall v :: 0 <= v <= n ==> value[v] == 0
    ensures Residual(f, n, value) == f
  {
    hide Remaining;
    if f != [] {
      var m := |f| - 1;
      assert !IsTrue(f[m], n, value);
      hide IsTrue;
      NothingAssigned(f[..m], n, value);
      NothingRemoved(f[m], n, value);
      assert f == f[..m] + [f[m]];
    }
  }

  lemma {:induction false} NothingRemoved(c: seq<int>, n: nat, value: seq<int>)
    requires |value| == n + 1 && (forall k :: 0 <= k < |c| ==> VarOf(c[k]) <= n) && forall v :: 0 <= v <= n ==> value[v] == 0
    ensures Remaining(c, n, value) == c
  {
    if c != [] {
      var m := |c| - 1;
      NothingRemoved(c[..m], n, value);
      assert c == c[..m] + [c[m]];
      assert Remaining(c, n, value) == Remaining(c[..m], n, value) + [c[m]];
    }
  }

  /** What a fixpoint says about the input and the formula left over. */
  lemma FixpointMeaning(f: seq<seq<int>>, n: nat, cls: seq<ClauseRec>, watchers: seq<seq<WatchRef>>, value: seq<int>,
                        trail: seq<int>)
    requires Invariant(f, n, |f|, cls, watchers, value, trail, [], 0, []) && NoEmptyClause(f)
    requires |value| == n + 1 && NoPure(f, n, value)
    ensures WellFormed(f, n) && ValueOk(n, value)
    ensures Reduced(Residual(f, n, value)) && NoEmptyClause(Residual(f, n, value))
    ensures Satisfiable(f) <==> Satisfiable(Residual(f, n, value))
    ensures forall a: Assignment :: Models(a, Residual(f, n, value)) ==> Models(Override(a, value), f)
    ensures forall a: Assignment :: Models(a, f) && Extends(a, value) ==> Models(a, Residual(f, n, value))
    ensures trail == [] ==> Residual(f, n, value) == f
  {
    hide Reduced;
    hide NoPure;
    FixpointReduced(f, n, cls, watchers, value, trail, 0);
    assert WellFormed(f, n) && ValueOk(n, value) && Preserved(f, value);
    if trail == [] {
      EmptyTrail(n, value, []);
    }
    hide Invariant;
    hide Residual;
    hide Models;
    hide WellFormed;
    forall a: Assignment | Models(a, Residual(f, n, value)) ensures Models(Override(a, value), f) {
      ResidualComplete(f, n, value, a);
    }
    forall a: Assignment | Models(a, f) && Extends(a, value) ensures Models(a, Residual(f, n, value)) {
      ResidualSound(f, n, value, a);
    }
    if trail == [] {
      NothingAssigned(f, n, value);
    }
  }

  datatype Result = Result(sat: bool, value: seq<int>, trail: seq<int>)

  /** up::simplify. The formula written out is meaningful when r.sat and eager_rebuild. */
  method Simplify(input: Cnf, eagerRebuild: bool) returns (r: Result, out: Cnf)
    requires input.Valid() && NoEmptyClause(input.Clauses())
    ensures !r.sat ==> !Satisfiable(input.Clauses())
    ensures r.sat ==> ValueOk(input.numVars, r.value) && TrailOk(input.numVars, r.value, r.trail, [])
    ensures !r.sat || !eagerRebuild ==> out == Cnf(0, 0, [], [0])
    ensures r.sat && eagerRebuild ==> out.Valid() && out.numVars == input.numVars
    ensures r.sat && eagerRebuild ==> (Satisfiable(input.Clauses()) <==> Satisfiable(out.Clauses()))
    ensures r.sat && eagerRebuild ==>
      forall a: Assignment :: Models(a, out.Clauses()) ==> Models(Override(a, r.value), input.Clauses())
    ensures r.sat && eagerRebuild ==>
      forall a: Assignment :: Models(a, input.Clauses()) && Extends(a, r.value) ==> Models(a, out.Clauses())
    ensures r.sat && eagerRebuild ==> Reduced(out.Clauses())
    ensures Reduced(input.Clauses()) ==> r.sat && r.trail == [] && (eagerRebuild ==> out.Clauses() == input.Clauses())
  {
    ghost var f, n := input.Clauses(), input.numVars;
    out := Cnf(0, 0, [], [0]);
    var e := new Engine(input);
    if Reduced(f) {
      StartsPureFree(f, n, e.cls, e.watchers, e.value, e.q);
    }
    hide Invariant;
    hide Reduced;
    hide NoPure;
    hide TrailOk;
    hide ValueOk;
    var ok := e.ToFixpoint();
    if !ok {
      return Result(false, [], []), out;
    }
    InvariantParts(f, n, |f|, e.cls, e.watchers, e.value, e.trail, e.q, 0, []);
    FixpointMeaning(f, n, e.cls, e.watchers, e.value, e.trail);
    if eagerRebuild {
      ok, out := e.Rebuild();
      assert ok;
    }
    r := Result(true, e.value, e.trail);
  }
}
