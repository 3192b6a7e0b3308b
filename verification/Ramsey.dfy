/** Benchmarks/ramsey/constraints.cc: the recursive totalizer, the order of the colours by their counts, and the tree
    encoding of at most one and exactly one. */
module Ramsey {
  import opened Logic

  /** The number of the variables that are true. */
  ghost function Count(a: Assignment, vars: seq<int>): (n: nat)
    ensures n <= |vars|
  {
    if vars == [] then 0 else Count(a, vars[..|vars| - 1]) + if vars[|vars| - 1] in a then 1 else 0
  }

  ghost predicate AgreeBelow(n: int, a: Assignment, b: Assignment) {
    forall v: int :: v < n ==> (v in a <==> v in b)
  }

  predicate VarsBelow(vars: seq<int>, n: int) {
    forall k :: 0 <= k < |vars| ==> 0 < vars[k] < n
  }

  predicate LitsBelow(f: seq<seq<int>>, n: int) {
    forall c, l :: c in f && l in c ==> l != 0 && VarOf(l) < n
  }

  ghost predicate Extendable(lo: int, f: seq<seq<int>>, a: Assignment) {
    exists b: Assignment :: AgreeBelow(lo, a, b) && Models(b, f)
  }

  /** Models of f that agree below lo agree below hi. */
  ghost predicate Determined(lo: int, hi: int, f: seq<seq<int>>) {
    forall b: Assignment, c: Assignment :: AgreeBelow(lo, b, c) && Models(b, f) && Models(c, f) ==> AgreeBelow(hi, b, c)
  }

  lemma {:induction false} CountAgrees(n: int, a: Assignment, b: Assignment, vars: seq<int>)
    requires AgreeBelow(n, a, b) && VarsBelow(vars, n)
    ensures Count(a, vars) == Count(b, vars)
  {
    if vars != [] {
      CountAgrees(n, a, b, vars[..|vars| - 1]);
    }
  }

  lemma {:induction false} CountConcat(a: Assignment, v: seq<int>, w: seq<int>)
    ensures Count(a, v + w) == Count(a, v) + Count(a, w)
  {
    if w == [] {
      assert v + w == v;
    } else {
      var n := |w| - 1;
      CountConcat(a, v, w[..n]);
      assert (v + w)[..|v + w| - 1] == v + w[..n];
    }
  }

  lemma ModelsAgree(n: int, a: Assignment, b: Assignment, f: seq<seq<int>>)
    requires AgreeBelow(n, a, b) && LitsBelow(f, n) && Models(a, f)
    ensures Models(b, f)
  {
    forall c | c in f ensures Satisfies(b, c) {
      assert Satisfies(a, c);
      var l :| l in c && Holds(a, l);
      assert Holds(b, l);
    }
  }

  lemma ModelsConcat(a: Assignment, f: seq<seq<int>>, g: seq<seq<int>>)
    ensures Models(a, f + g) <==> Models(a, f) && Models(a, g)
  {
    assert forall c :: c in f + g <==> c in f || c in g;
  }

  lemma LitsConcat(f: seq<seq<int>>, g: seq<seq<int>>, m: int, n: int)
    requires LitsBelow(f, m) && LitsBelow(g, n) && m <= n
    ensures LitsBelow(f + g, n)
  {
  }

  // --------------------------------------------------------------- totalizer

  /** u lists the unary count of n: entry k - 1 is true exactly if n is at least k. */
  ghost predicate Unary(a: Assignment, u: seq<int>, n: nat) {
    forall k :: 0 <= k < |u| ==> (u[k] in a <==> n >= k + 1)
  }

  /** get_unitary_index: the literal for "at least index", the negation of "at least 1" for index 0. */
  function UnitaryIndex(u: seq<int>, index: nat): int
    requires u != [] && index <= |u|
  {
    if index == 0 then -u[0] else u[index - 1]
  }

  function UnitaryIndexNegative(u: seq<int>, index: nat): int
    requires u != [] && index <= |u|
  {
    if index == 0 then u[0] else -u[index - 1]
  }

  /** The clauses that make u the unary sum of a and b. */
  predicate SumClause(a: seq<int>, b: seq<int>, u: seq<int>, c: seq<int>)
    requires a != [] && b != [] && |u| == |a| + |b|
  {
    || (exists i, j :: 0 <= i <= |a| && 0 <= j <= |b| && c == AtLeast(a, b, u, i, j))
    || (exists i, j :: 1 <= i <= |a| && 1 <= j <= |b| && c == AtMost(a, b, u, i, j))
    || (exists i :: 1 <= i <= |a| && c == [UnitaryIndex(a, i), UnitaryIndexNegative(u, i + |b|)])
    || (exists j :: 1 <= j <= |b| && c == [UnitaryIndex(b, j), UnitaryIndexNegative(u, j + |a|)])
    || (exists j :: 1 <= j < |u| && c == [UnitaryIndex(u, j), UnitaryIndexNegative(u, j + 1)])
  }

  function AtLeast(a: seq<int>, b: seq<int>, u: seq<int>, i: nat, j: nat): seq<int>
    requires a != [] && b != [] && |u| == |a| + |b| && i <= |a| && j <= |b|
  {
    [UnitaryIndexNegative(a, i), UnitaryIndexNegative(b, j), UnitaryIndex(u, i + j)]
  }

  function AtMost(a: seq<int>, b: seq<int>, u: seq<int>, i: nat, j: nat): seq<int>
    requires a != [] && b != [] && |u| == |a| + |b| && 1 <= i <= |a| && 1 <= j <= |b|
  {
    [UnitaryIndex(a, i), UnitaryIndex(b, j), UnitaryIndexNegative(u, i + j - 1)]
  }

  lemma Two(m: Assignment, x: int, y: int)
    ensures Satisfies(m, [x, y]) <==> Holds(m, x) || Holds(m, y)
  {
    assert [x, y][0] in [x, y] && [x, y][1] in [x, y];
  }

  lemma Three(m: Assignment, x: int, y: int, z: int)
    ensures Satisfies(m, [x, y, z]) <==> Holds(m, x) || Holds(m, y) || Holds(m, z)
  {
    assert [x, y, z][0] in [x, y, z] && [x, y, z][1] in [x, y, z] && [x, y, z][2] in [x, y, z];
  }

  /** Positive variables: the literals of the unary numbers mean what they say. */
  lemma IndexHolds(m: Assignment, u: seq<int>, n: nat, k: nat)
    requires u != [] && Unary(m, u, n) && k <= |u| && forall i :: 0 <= i < |u| ==> u[i] > 0
    ensures k >= 1 ==> (Holds(m, UnitaryIndex(u, k)) <==> n >= k) && (Holds(m, UnitaryIndexNegative(u, k)) <==> n < k)
    ensures k == 0 ==> (Holds(m, UnitaryIndex(u, k)) <==> n == 0) && (Holds(m, UnitaryIndexNegative(u, k)) <==> n >= 1)
  {
  }

  /** The unary sum satisfies every clause. */
  lemma SumSatisfies(m: Assignment, a: seq<int>, b: seq<int>, u: seq<int>, x: nat, y: nat, c: seq<int>)
    requires a != [] && b != [] && |u| == |a| + |b| && SumClause(a, b, u, c)
    requires Unary(m, a, x) && Unary(m, b, y) && Unary(m, u, x + y) && x <= |a| && y <= |b|
    requires (forall i :: 0 <= i < |a| ==> a[i] > 0) && (forall i :: 0 <= i < |b| ==> b[i] > 0) && forall i :: 0 <= i < |u| ==> u[i] > 0
    ensures Satisfies(m, c)
  {
    hide Satisfies;
    hide Unary;
    hide Holds;
    hide UnitaryIndex;
    hide UnitaryIndexNegative;
    if i, j :| 0 <= i <= |a| && 0 <= j <= |b| && c == AtLeast(a, b, u, i, j) {
      IndexHolds(m, a, x, i);
      IndexHolds(m, b, y, j);
      IndexHolds(m, u, x + y, i + j);
      Three(m, c[0], c[1], c[2]);
    } else if i, j :| 1 <= i <= |a| && 1 <= j <= |b| && c == AtMost(a, b, u, i, j) {
      IndexHolds(m, a, x, i);
      IndexHolds(m, b, y, j);
      IndexHolds(m, u, x + y, i + j - 1);
      Three(m, c[0], c[1], c[2]);
    } else if i :| 1 <= i <= |a| && c == [UnitaryIndex(a, i), UnitaryIndexNegative(u, i + |b|)] {
      IndexHolds(m, a, x, i);
      IndexHolds(m, u, x + y, i + |b|);
      Two(m, c[0], c[1]);
    } else if j :| 1 <= j <= |b| && c == [UnitaryIndex(b, j), UnitaryIndexNegative(u, j + |a|)] {
      IndexHolds(m, b, y, j);
      IndexHolds(m, u, x + y, j + |a|);
      Two(m, c[0], c[1]);
    } else {
      var j :| 1 <= j < |u| && c == [UnitaryIndex(u, j), UnitaryIndexNegative(u, j + 1)];
      IndexHolds(m, u, x + y, j);
      IndexHolds(m, u, x + y, j + 1);
      Two(m, c[0], c[1]);
    }
  }

  /** f holds exactly the sum clauses. */
  ghost predicate SumFormula(a: seq<int>, b: seq<int>, u: seq<int>, f: seq<seq<int>>)
    requires a != [] && b != [] && |u| == |a| + |b|
  {
    forall c :: c in f <==> SumClause(a, b, u, c)
  }

  ghost predicate Ordered(m: Assignment, u: seq<int>) {
    forall j :: 1 <= j < |u| && u[j] in m ==> u[j - 1] in m
  }

  lemma {:induction false} OrderedDown(m: Assignment, u: seq<int>, i: nat, j: nat)
    requires Ordered(m, u) && i <= j < |u| && u[j] in m
    ensures u[i] in m
    decreases j - i
  {
    if i < j {
      OrderedDown(m, u, i, j - 1);
    }
  }

  /** The clauses force the unary sum: the bit of x + y is set, the next one is not, and the bits are ordered. */
  lemma SumForced(m: Assignment, a: seq<int>, b: seq<int>, u: seq<int>, x: nat, y: nat, f: seq<seq<int>>)
    requires a != [] && b != [] && |u| == |a| + |b| && SumFormula(a, b, u, f) && Models(m, f)
    requires Unary(m, a, x) && Unary(m, b, y) && x <= |a| && y <= |b|
    requires (forall i :: 0 <= i < |a| ==> a[i] > 0) && (forall i :: 0 <= i < |b| ==> b[i] > 0) && forall i :: 0 <= i < |u| ==> u[i] > 0
    ensures Unary(m, u, x + y)
  {
    SumOrdered(m, a, b, u, f);
    SumReached(m, a, b, u, x, y, f);
    SumBounded(m, a, b, u, x, y, f);
    forall k | 0 <= k < |u| ensures u[k] in m <==> x + y >= k + 1 {
      if k < x + y {
        OrderedDown(m, u, k, x + y - 1);
      } else if u[k] in m {
        OrderedDown(m, u, x + y, k);
      }
    }
  }

  lemma SumOrdered(m: Assignment, a: seq<int>, b: seq<int>, u: seq<int>, f: seq<seq<int>>)
    requires a != [] && b != [] && |u| == |a| + |b| && SumFormula(a, b, u, f) && Models(m, f) && forall i :: 0 <= i < |u| ==> u[i] > 0
    ensures Ordered(m, u)
  {
    forall j | 1 <= j < |u| && u[j] in m ensures u[j - 1] in m {
      var c := [UnitaryIndex(u, j), UnitaryIndexNegative(u, j + 1)];
      assert SumClause(a, b, u, c) && c in f && Satisfies(m, c);
      Two(m, c[0], c[1]);
    }
  }

  lemma SumReached(m: Assignment, a: seq<int>, b: seq<int>, u: seq<int>, x: nat, y: nat, f: seq<seq<int>>)
    requires a != [] && b != [] && |u| == |a| + |b| && SumFormula(a, b, u, f) && Models(m, f)
    requires Unary(m, a, x) && Unary(m, b, y) && x <= |a| && y <= |b|
    requires (forall i :: 0 <= i < |a| ==> a[i] > 0) && (forall i :: 0 <= i < |b| ==> b[i] > 0) && forall i :: 0 <= i < |u| ==> u[i] > 0
    ensures x + y > 0 ==> u[x + y - 1] in m
  {
    var c := AtLeast(a, b, u, x, y);
    assert SumClause(a, b, u, c) && c in f && Satisfies(m, c);
    Three(m, c[0], c[1], c[2]);
    IndexHolds(m, a, x, x);
    IndexHolds(m, b, y, y);
  }

  lemma SumBounded(m: Assignment, a: seq<int>, b: seq<int>, u: seq<int>, x: nat, y: nat, f: seq<seq<int>>)
    requires a != [] && b != [] && |u| == |a| + |b| && SumFormula(a, b, u, f) && Models(m, f)
    requires Unary(m, a, x) && Unary(m, b, y) && x <= |a| && y <= |b|
    requires (forall i :: 0 <= i < |a| ==> a[i] > 0) && (forall i :: 0 <= i < |b| ==> b[i] > 0) && forall i :: 0 <= i < |u| ==> u[i] > 0
    ensures x + y < |u| ==> u[x + y] !in m
  {
    hide Unary;
    if x < |a| && y < |b| {
      var c := AtMost(a, b, u, x + 1, y + 1);
      assert SumClause(a, b, u, c) && c in f && Satisfies(m, c);
      Three(m, c[0], c[1], c[2]);
      IndexHolds(m, a, x, x + 1);
      IndexHolds(m, b, y, y + 1);
    } else if x < |a| {
      var c := [UnitaryIndex(a, x + 1), UnitaryIndexNegative(u, x + 1 + |b|)];
      assert SumClause(a, b, u, c) && c in f && Satisfies(m, c);
      Two(m, c[0], c[1]);
      IndexHolds(m, a, x, x + 1);
    } else if y < |b| {
      var c := [UnitaryIndex(b, y + 1), UnitaryIndexNegative(u, y + 1 + |a|)];
      assert SumClause(a, b, u, c) && c in f && Satisfies(m, c);
      Two(m, c[0], c[1]);
      IndexHolds(m, b, y, y + 1);
    }
  }

  /** What the totalizer promises of the clauses f it adds with auxiliary variables from lo to hi - 1. */
  ghost predicate Totals(vars: seq<int>, outs: seq<int>, lo: int, hi: int, f: seq<seq<int>>) {
    && |outs| == |vars| && VarsBelow(outs, hi) && LitsBelow(f, hi) && lo <= hi
    && (forall m: Assignment :: Models(m, f) ==> Unary(m, outs, Count(m, vars)))
    && (forall a: Assignment :: Extendable(lo, f, a))
    && Determined(lo, hi, f)
  }

  lemma {:induction false} FewVars(vars: seq<int>, n: int)
    requires |vars| <= 1 && VarsBelow(vars, n)
    ensures Totals(vars, vars, n, n, [])
  {
    forall m: Assignment ensures Unary(m, vars, Count(m, vars)) {
    }
    forall a: Assignment ensures Extendable(n, [], a) {
      assert AgreeBelow(n, a, a) && Models(a, []);
    }
  }

  /** The assignment with the outputs set to the unary count n. */
  ghost function WithUnary(a: Assignment, lo: int, n: nat): Assignment {
    iset v: int | if v < lo then v in a else v < lo + n
  }

  /** Two totalizers and the sum of their outputs, numbered from mid on, are a totalizer. */
  lemma TotalsSum(va: seq<int>, vb: seq<int>, a: seq<int>, b: seq<int>, u: seq<int>, lo: int, mid: int, hi: int,
                  fa: seq<seq<int>>, fb: seq<seq<int>>, f: seq<seq<int>>)
    requires va != [] && vb != [] && VarsBelow(va, lo) && VarsBelow(vb, lo) && lo > 0
    requires Totals(va, a, lo, mid, fa) && Totals(vb, b, mid, hi, fb)
    requires |u| == |a| + |b| && (forall k :: 0 <= k < |u| ==> u[k] == hi + k) && SumFormula(a, b, u, f)
    ensures Totals(va + vb, u, lo, hi + |u|, fa + fb + f)
  {
    var g := fa + fb + f;
    SumLits(a, b, u, hi, f);
    LitsConcat(fa, fb, mid, hi);
    LitsConcat(fa + fb, f, hi, hi + |u|);
    forall m: Assignment | Models(m, g) ensures Unary(m, u, Count(m, va + vb)) {
      SumCounts(va, vb, a, b, u, lo, mid, hi, fa, fb, f, m);
    }
    forall x: Assignment ensures Extendable(lo, g, x) {
      SumExtends(va, vb, a, b, u, lo, mid, hi, fa, fb, f, x);
    }
    forall m: Assignment, n: Assignment | AgreeBelow(lo, m, n) && Models(m, g) && Models(n, g) ensures AgreeBelow(hi + |u|, m, n) {
      SumDetermined(va, vb, a, b, u, lo, mid, hi, fa, fb, f, m, n);
    }
    hide SumFormula;
    hide Unary;
    hide Extendable;
  }

  lemma SumLits(a: seq<int>, b: seq<int>, u: seq<int>, hi: int, f: seq<seq<int>>)
    requires a != [] && b != [] && |u| == |a| + |b| && SumFormula(a, b, u, f) && VarsBelow(a, hi) && VarsBelow(b, hi) && hi > 0
    requires forall k :: 0 <= k < |u| ==> u[k] == hi + k
    ensures LitsBelow(f, hi + |u|) && VarsBelow(u, hi + |u|)
  {
    forall c, l | c in f && l in c ensures l != 0 && VarOf(l) < hi + |u| {
      assert SumClause(a, b, u, c);
    }
  }

  lemma SumCounts(va: seq<int>, vb: seq<int>, a: seq<int>, b: seq<int>, u: seq<int>, lo: int, mid: int, hi: int,
                  fa: seq<seq<int>>, fb: seq<seq<int>>, f: seq<seq<int>>, m: Assignment)
    requires va != [] && vb != [] && Totals(va, a, lo, mid, fa) && Totals(vb, b, mid, hi, fb)
    requires |u| == |a| + |b| && (forall k :: 0 <= k < |u| ==> u[k] == hi + k) && SumFormula(a, b, u, f) && hi > 0
    requires Models(m, fa + fb + f)
    ensures Unary(m, u, Count(m, va + vb))
  {
    ModelsConcat(m, fa + fb, f);
    ModelsConcat(m, fa, fb);
    CountConcat(m, va, vb);
    hide SumFormula;
    hide Count;
    SumForced(m, a, b, u, Count(m, va), Count(m, vb), f);
  }

  lemma SumExtends(va: seq<int>, vb: seq<int>, a: seq<int>, b: seq<int>, u: seq<int>, lo: int, mid: int, hi: int,
                   fa: seq<seq<int>>, fb: seq<seq<int>>, f: seq<seq<int>>, x: Assignment)
    requires va != [] && vb != [] && Totals(va, a, lo, mid, fa) && Totals(vb, b, mid, hi, fb)
    requires |u| == |a| + |b| && (forall k :: 0 <= k < |u| ==> u[k] == hi + k) && SumFormula(a, b, u, f) && hi > 0
    ensures Extendable(lo, fa + fb + f, x)
  {
    assert Extendable(lo, fa, x);
    var y: Assignment :| AgreeBelow(lo, x, y) && Models(y, fa);
    assert Extendable(mid, fb, y);
    var z: Assignment :| AgreeBelow(mid, y, z) && Models(z, fb);
    ModelsAgree(mid, y, z, fa);
    var n := Count(z, va) + Count(z, vb);
    var m := WithUnary(z, hi, n);
    assert AgreeBelow(hi, z, m);
    ModelsAgree(hi, z, m, fb);
    ModelsAgree(hi, z, m, fa);
    assert Unary(z, a, Count(z, va)) && Unary(z, b, Count(z, vb));
    UnaryAgrees(hi, z, m, a, Count(z, va));
    UnaryAgrees(hi, z, m, b, Count(z, vb));
    assert Unary(m, u, n);
    forall c | c in f ensures Satisfies(m, c) {
      SumSatisfies(m, a, b, u, Count(z, va), Count(z, vb), c);
    }
    ModelsConcat(m, fa, fb);
    ModelsConcat(m, fa + fb, f);
    assert AgreeBelow(lo, x, m) && Models(m, fa + fb + f);
  }

  lemma UnaryAgrees(hi: int, z: Assignment, m: Assignment, u: seq<int>, n: nat)
    requires AgreeBelow(hi, z, m) && VarsBelow(u, hi) && Unary(z, u, n)
    ensures Unary(m, u, n)
  {
  }

  lemma SumDetermined(va: seq<int>, vb: seq<int>, a: seq<int>, b: seq<int>, u: seq<int>, lo: int, mid: int, hi: int,
                      fa: seq<seq<int>>, fb: seq<seq<int>>, f: seq<seq<int>>, m: Assignment, n: Assignment)
    requires va != [] && vb != [] && VarsBelow(va, lo) && VarsBelow(vb, lo) && Totals(va, a, lo, mid, fa) && Totals(vb, b, mid, hi, fb)
    requires |u| == |a| + |b| && (forall k :: 0 <= k < |u| ==> u[k] == hi + k) && SumFormula(a, b, u, f) && hi > 0
    requires AgreeBelow(lo, m, n) && Models(m, fa + fb + f) && Models(n, fa + fb + f)
    ensures AgreeBelow(hi + |u|, m, n)
  {
    SumCounts(va, vb, a, b, u, lo, mid, hi, fa, fb, f, m);
    SumCounts(va, vb, a, b, u, lo, mid, hi, fa, fb, f, n);
    ModelsConcat(m, fa + fb, f);
    ModelsConcat(m, fa, fb);
    ModelsConcat(n, fa + fb, f);
    ModelsConcat(n, fa, fb);
    assert AgreeBelow(mid, m, n) && AgreeBelow(hi, m, n);
    assert VarsBelow(va + vb, lo);
    CountAgrees(lo, m, n, va + vb);
    forall v: int | v < hi + |u| ensures v in m <==> v in n {
      if v >= hi {
        assert u[v - hi] == v;
      }
    }
  }

  // ------------------------------------------------- order of the colours

  /** The clauses that bring the unary numbers into non-increasing order. */
  ghost predicate OrderFormula(us: seq<seq<int>>, f: seq<seq<int>>) {
    forall c :: c in f <==> exists i, j :: OrderClause(us, i, j, c)
  }

  /** The clause that lets number i + 1 be at least j + 1 only if number i is. */
  predicate OrderClause(us: seq<seq<int>>, i: int, j: int, c: seq<int>) {
    0 <= i < |us| - 1 && 0 <= j < |us[i]| && j < |us[i + 1]| && c == [us[i][j], -us[i + 1][j]]
  }

  /** The colours, each with its variables, are used in non-increasing numbers. */
  ghost predicate NonIncreasing(m: Assignment, colours: seq<seq<int>>) {
    forall i :: 0 <= i < |colours| - 1 ==> Count(m, colours[i]) >= Count(m, colours[i + 1])
  }

  lemma OrderMeaning(m: Assignment, us: seq<seq<int>>, f: seq<seq<int>>, colours: seq<seq<int>>, n: nat)
    requires OrderFormula(us, f) && |us| == |colours| && (forall i :: 0 <= i < |us| ==> |us[i]| == |colours[i]| == n && VarsPositive(us[i]))
    requires forall i :: 0 <= i < |us| ==> Unary(m, us[i], Count(m, colours[i]))
    ensures Models(m, f) <==> NonIncreasing(m, colours)
  {
    if Models(m, f) {
      forall i | 0 <= i < |colours| - 1 ensures Count(m, colours[i]) >= Count(m, colours[i + 1]) {
        var k := Count(m, colours[i + 1]);
        if k > 0 {
          var c := [us[i][k - 1], -us[i + 1][k - 1]];
          assert OrderClause(us, i, k - 1, c) && c in f && Satisfies(m, c);
          Two(m, c[0], c[1]);
          assert us[i + 1][k - 1] in m;
        }
      }
    }
    if NonIncreasing(m, colours) {
      forall c | c in f ensures Satisfies(m, c) {
        var i, j :| OrderClause(us, i, j, c);
        Two(m, c[0], c[1]);
        assert Count(m, colours[i]) >= Count(m, colours[i + 1]);
        assert Unary(m, us[i], Count(m, colours[i])) && Unary(m, us[i + 1], Count(m, colours[i + 1]));
      }
    }
  }

  predicate VarsPositive(vars: seq<int>) {
    forall k :: 0 <= k < |vars| ==> vars[k] > 0
  }

  /** Totalizers for several groups of variables, one after the other. */
  ghost predicate AllTotals(groups: seq<seq<int>>, us: seq<seq<int>>, lo: int, hi: int, f: seq<seq<int>>) {
    && |us| == |groups| && lo <= hi && LitsBelow(f, hi)
    && (forall i :: 0 <= i < |us| ==> |us[i]| == |groups[i]| && VarsBelow(us[i], hi))
    && (forall m: Assignment :: Models(m, f) ==> forall i :: 0 <= i < |us| ==> Unary(m, us[i], Count(m, groups[i])))
    && (forall a: Assignment :: Extendable(lo, f, a))
  }

  lemma NoTotals(lo: int)
    ensures AllTotals([], [], lo, lo, [])
  {
    forall a: Assignment ensures Extendable(lo, [], a) {
      assert AgreeBelow(lo, a, a) && Models(a, []);
    }
  }

  lemma MoreTotals(groups: seq<seq<int>>, us: seq<seq<int>>, lo: int, mid: int, f: seq<seq<int>>, vars: seq<int>,
                   u: seq<int>, hi: int, g: seq<seq<int>>)
    requires AllTotals(groups, us, lo, mid, f) && Totals(vars, u, mid, hi, g)
    ensures AllTotals(groups + [vars], us + [u], lo, hi, f + g)
  {
    LitsConcat(f, g, mid, hi);
    forall m: Assignment | Models(m, f + g)
      ensures forall i :: 0 <= i < |us| + 1 ==> Unary(m, (us + [u])[i], Count(m, (groups + [vars])[i]))
    {
      ModelsConcat(m, f, g);
    }
    forall a: Assignment ensures Extendable(lo, f + g, a) {
      assert Extendable(lo, f, a);
      var b: Assignment :| AgreeBelow(lo, a, b) && Models(b, f);
      assert Extendable(mid, g, b);
      var c: Assignment :| AgreeBelow(mid, b, c) && Models(c, g);
      ModelsAgree(mid, b, c, f);
      ModelsConcat(c, f, g);
      assert AgreeBelow(lo, a, c) && Models(c, f + g);
    }
    hide Unary;
    hide Extendable;
    hide Determined;
  }

  /** The colour constraint as a whole: it extends an assignment of the edges exactly when the counts are non-increasing. */
  lemma ColoursOrdered(colours: seq<seq<int>>, us: seq<seq<int>>, lo: int, hi: int, f: seq<seq<int>>,
                       g: seq<seq<int>>, n: nat, a: Assignment)
    requires AllTotals(colours, us, lo, hi, f) && OrderFormula(us, g)
    requires forall i :: 0 <= i < |colours| ==> |colours[i]| == n && VarsBelow(colours[i], lo)
    ensures Extendable(lo, f + g, a) <==> NonIncreasing(a, colours)
  {
    assert forall i :: 0 <= i < |us| ==> VarsPositive(us[i]);
    if Extendable(lo, f + g, a) {
      var b: Assignment :| AgreeBelow(lo, a, b) && Models(b, f + g);
      ModelsConcat(b, f, g);
      OrderMeaning(b, us, g, colours, n);
      SameCounts(lo, a, b, colours);
    }
    if NonIncreasing(a, colours) {
      assert Extendable(lo, f, a);
      var b: Assignment :| AgreeBelow(lo, a, b) && Models(b, f);
      SameCounts(lo, a, b, colours);
      OrderMeaning(b, us, g, colours, n);
      ModelsConcat(b, f, g);
    }
  }

  lemma SameCounts(lo: int, a: Assignment, b: Assignment, colours: seq<seq<int>>)
    requires AgreeBelow(lo, a, b) && forall i :: 0 <= i < |colours| ==> VarsBelow(colours[i], lo)
    ensures NonIncreasing(a, colours) <==> NonIncreasing(b, colours)
  {
    forall i | 0 <= i < |colours| ensures Count(a, colours[i]) == Count(b, colours[i]) {
      CountAgrees(lo, a, b, colours[i]);
    }
  }

  // ------------------------------------------------------------------- trees

  /** The four clauses of a node over x and y. */
  function NodeClauses(x: int, y: int, aux: int): seq<seq<int>> {
    [[-x, -y], [-x, aux], [-y, aux], [x, y, -aux]]
  }

  lemma NodeMeaning(m: Assignment, x: int, y: int, aux: int)
    requires x > 0 && y > 0 && aux > 0
    ensures Models(m, NodeClauses(x, y, aux)) <==> !(x in m && y in m) && (aux in m <==> x in m || y in m)
  {
    var f := NodeClauses(x, y, aux);
    Two(m, -x, -y);
    Two(m, -x, aux);
    Two(m, -y, aux);
    Three(m, x, y, -aux);
    assert f[0] in f && f[1] in f && f[2] in f && f[3] in f;
    hide Satisfies;
  }

  /** A forest over the inputs: in every model the tops are true as often as the inputs; an assignment with at most one true
      input extends; and the auxiliary variables are determined. */
  ghost predicate Forest(inputs: seq<int>, tops: seq<int>, lo: int, hi: int, f: seq<seq<int>>) {
    && VarsBelow(tops, hi) && LitsBelow(f, hi) && lo <= hi
    && (forall m: Assignment :: Models(m, f) ==> Count(m, tops) == Count(m, inputs))
    && (forall a: Assignment :: Count(a, inputs) <= 1 ==> Extendable(lo, f, a))
    && Determined(lo, hi, f)
  }

  /** Joining two tops under a new variable. */
  lemma ForestJoins(inputs: seq<int>, front: seq<int>, x: int, y: int, back: seq<int>, lo: int, hi: int, f: seq<seq<int>>)
    requires Forest(inputs, front + [x, y] + back, lo, hi, f) && VarsBelow(inputs, lo) && hi > 0
    ensures Forest(inputs, front + [hi] + back, lo, hi + 1, f + NodeClauses(x, y, hi))
  {
    var g := f + NodeClauses(x, y, hi);
    var tops, tops' := front + [x, y] + back, front + [hi] + back;
    assert tops[|front|] == x && tops[|front| + 1] == y;
    JoinVars(front, x, y, back, hi);
    LitsConcat(f, NodeClauses(x, y, hi), hi, hi + 1);
    forall m: Assignment | Models(m, g) ensures Count(m, tops') == Count(m, inputs) {
      ModelsConcat(m, f, NodeClauses(x, y, hi));
      NodeMeaning(m, x, y, hi);
      CountJoin(m, front, x, y, back, hi);
    }
    forall a: Assignment | Count(a, inputs) <= 1 ensures Extendable(lo, g, a) {
      JoinExtends(inputs, front, x, y, back, lo, hi, f, a);
    }
    forall m: Assignment, n: Assignment | AgreeBelow(lo, m, n) && Models(m, g) && Models(n, g) ensures AgreeBelow(hi + 1, m, n) {
      ModelsConcat(m, f, NodeClauses(x, y, hi));
      ModelsConcat(n, f, NodeClauses(x, y, hi));
      assert AgreeBelow(hi, m, n);
      NodeMeaning(m, x, y, hi);
      NodeMeaning(n, x, y, hi);
    }
    hide NodeClauses;
    hide Count;
    hide Extendable;
  }

  lemma JoinVars(front: seq<int>, x: int, y: int, back: seq<int>, hi: int)
    requires VarsBelow(front + [x, y] + back, hi) && hi > 0
    ensures 0 < x < hi && 0 < y < hi && VarsBelow(front + [hi] + back, hi + 1)
  {
    var tops, tops' := front + [x, y] + back, front + [hi] + back;
    assert tops[|front|] == x && tops[|front| + 1] == y;
    forall k | 0 <= k < |tops'| ensures 0 < tops'[k] < hi + 1 {
      assert k != |front| ==> tops'[k] == tops[if k < |front| then k else k + 1];
    }
  }

  lemma CountJoin(m: Assignment, front: seq<int>, x: int, y: int, back: seq<int>, z: int)
    requires !(x in m && y in m) && (z in m <==> x in m || y in m)
    ensures Count(m, front + [z] + back) == Count(m, front + [x, y] + back)
  {
    CountConcat(m, front + [z], back);
    CountConcat(m, front, [z]);
    CountConcat(m, front + [x, y], back);
    CountConcat(m, front, [x, y]);
    assert [x, y] == [x] + [y];
    CountConcat(m, [x], [y]);
  }

  lemma NotBoth(m: Assignment, front: seq<int>, x: int, y: int, back: seq<int>)
    requires Count(m, front + [x, y] + back) <= 1
    ensures !(x in m && y in m)
  {
    CountConcat(m, front + [x, y], back);
    CountConcat(m, front, [x, y]);
    assert [x, y] == [x] + [y];
    CountConcat(m, [x], [y]);
  }

  lemma NodeExtends(b: Assignment, x: int, y: int, hi: int, f: seq<seq<int>>)
    requires LitsBelow(f, hi) && Models(b, f) && 0 < x < hi && 0 < y < hi && !(x in b && y in b)
    ensures exists c: Assignment :: AgreeBelow(hi, b, c) && Models(c, f + NodeClauses(x, y, hi))
  {
    var c := iset v: int | if v < hi then v in b else v == hi && (x in b || y in b);
    assert AgreeBelow(hi, b, c);
    ModelsAgree(hi, b, c, f);
    hide Models;
    NodeMeaning(c, x, y, hi);
    ModelsConcat(c, f, NodeClauses(x, y, hi));
  }

  lemma JoinExtends(inputs: seq<int>, front: seq<int>, x: int, y: int, back: seq<int>, lo: int, hi: int,
                    f: seq<seq<int>>, a: Assignment)
    requires Forest(inputs, front + [x, y] + back, lo, hi, f) && VarsBelow(inputs, lo) && hi > 0 && 0 < x < hi && 0 < y < hi
    requires Count(a, inputs) <= 1
    ensures Extendable(lo, f + NodeClauses(x, y, hi), a)
  {
    assert Extendable(lo, f, a);
    var b: Assignment :| AgreeBelow(lo, a, b) && Models(b, f);
    CountAgrees(lo, a, b, inputs);
    assert Count(b, front + [x, y] + back) <= 1;
    NotBoth(b, front, x, y, back);
    hide Count;
    NodeExtends(b, x, y, hi, f);
    hide Models;
    var c: Assignment :| AgreeBelow(hi, b, c) && Models(c, f + NodeClauses(x, y, hi));
    assert AgreeBelow(lo, a, c);
  }

  lemma Without(front: seq<int>, x: int, back: seq<int>)
    ensures multiset(front + back) == multiset(front + [x] + back) - multiset{x}
  {
    assert multiset(front + back) == multiset(front) + multiset(back);
    assert multiset(front + [x] + back) == multiset(front) + multiset{x} + multiset(back);
  }

  lemma {:induction false} CountPermuted(m: Assignment, v: seq<int>, w: seq<int>)
    requires multiset(v) == multiset(w)
    ensures Count(m, v) == Count(m, w)
    decreases |v|
  {
    assert |v| == |multiset(v)| == |multiset(w)| == |w|;
    if v != [] {
      var n := |v| - 1;
      var x := v[n];
      assert x in multiset(v);
      var j :| 0 <= j < |w| && w[j] == x;
      assert v == v[..n] + [x];
      assert w == w[..j] + [x] + w[j + 1..];
      Without(v[..n], x, []);
      Without(w[..j], x, w[j + 1..]);
      assert v[..n] + [x] + [] == v && v[..n] + [] == v[..n];
      CountPermuted(m, v[..n], w[..j] + w[j + 1..]);
      CountConcat(m, w[..j] + [x], w[j + 1..]);
      CountConcat(m, w[..j], [x]);
      CountConcat(m, w[..j], w[j + 1..]);
      assert [x][..0] == [];
    }
  }

  lemma ForestPermuted(inputs: seq<int>, tops: seq<int>, tops': seq<int>, lo: int, hi: int, f: seq<seq<int>>)
    requires Forest(inputs, tops, lo, hi, f) && multiset(tops) == multiset(tops')
    ensures Forest(inputs, tops', lo, hi, f)
  {
    forall k | 0 <= k < |tops'| ensures 0 < tops'[k] < hi {
      assert tops'[k] in multiset(tops);
      var j :| 0 <= j < |tops| && tops[j] == tops'[k];
    }
    forall m: Assignment | Models(m, f) ensures Count(m, tops') == Count(m, inputs) {
      CountPermuted(m, tops, tops');
    }
  }

  lemma ForestStart(inputs: seq<int>, n: int)
    requires VarsBelow(inputs, n)
    ensures Forest(inputs, inputs, n, n, [])
  {
    forall a: Assignment ensures Extendable(n, [], a) {
      assert AgreeBelow(n, a, a) && Models(a, []);
    }
  }

  /** A finished tree: it extends an assignment exactly when at most one input is true, and the root says whether one is. */
  lemma TreeMeaning(inputs: seq<int>, root: int, lo: int, hi: int, f: seq<seq<int>>, a: Assignment)
    requires Forest(inputs, [root], lo, hi, f) && VarsBelow(inputs, lo)
    ensures Extendable(lo, f, a) <==> Count(a, inputs) <= 1
    ensures forall b: Assignment :: AgreeBelow(lo, a, b) && Models(b, f) ==> (root in b <==> Count(a, inputs) >= 1)
    ensures Extendable(lo, f + [[root]], a) <==> Count(a, inputs) == 1
  {
    hide Forest;
    hide Count;
    hide Models;
    hide AgreeBelow;
    forall b: Assignment | AgreeBelow(lo, a, b) && Models(b, f)
      ensures Count(a, inputs) <= 1 && (root in b <==> Count(a, inputs) >= 1)
    {
      RootCounts(inputs, root, lo, hi, f, a, b);
    }
    if Count(a, inputs) <= 1 {
      ForestExtends(inputs, [root], lo, hi, f, a);
    }
    forall b: Assignment ensures Models(b, f + [[root]]) <==> Models(b, f) && root in b {
      RootUnit(inputs, root, lo, hi, f, b);
    }
  }

  lemma RootCounts(inputs: seq<int>, root: int, lo: int, hi: int, f: seq<seq<int>>, a: Assignment, b: Assignment)
    requires Forest(inputs, [root], lo, hi, f) && VarsBelow(inputs, lo) && AgreeBelow(lo, a, b) && Models(b, f)
    ensures Count(a, inputs) <= 1 && (root in b <==> Count(a, inputs) >= 1)
  {
    CountAgrees(lo, a, b, inputs);
    assert Count(b, [root]) == Count(b, inputs);
    assert [root][..0] == [];
    hide Models;
    hide AgreeBelow;
    hide Determined;
  }

  lemma ForestExtends(inputs: seq<int>, tops: seq<int>, lo: int, hi: int, f: seq<seq<int>>, a: Assignment)
    requires Forest(inputs, tops, lo, hi, f) && Count(a, inputs) <= 1
    ensures Extendable(lo, f, a)
  {
  }

  lemma RootUnit(inputs: seq<int>, root: int, lo: int, hi: int, f: seq<seq<int>>, b: Assignment)
    requires Forest(inputs, [root], lo, hi, f)
    ensures Models(b, f + [[root]]) <==> Models(b, f) && root in b
  {
    hide Satisfies;
    assert VarsBelow([root], hi) && [root][0] == root && root > 0;
    hide Forest;
    ModelsConcat(b, f, [[root]]);
    hide Models;
    UnitModels(b, root);
  }

  lemma UnitModels(b: Assignment, root: int)
    requires root > 0
    ensures Models(b, [[root]]) <==> root in b
  {
    assert [[root]][0] == [root] && [root][0] in [root];
    assert Satisfies(b, [root]) <==> Holds(b, root);
  }

  // ---------------------------------------------------------------- pairwise

  ghost predicate PairFormula(vars: seq<int>, f: seq<seq<int>>) {
    forall c :: c in f <==> exists i, j :: 0 <= i < j < |vars| && c == [-vars[i], -vars[j]]
  }

  lemma {:induction false} CountAtMostOne(m: Assignment, vars: seq<int>)
    ensures Count(m, vars) <= 1 <==> forall i, j :: 0 <= i < j < |vars| ==> !(vars[i] in m && vars[j] in m)
    ensures Count(m, vars) == 0 <==> forall i :: 0 <= i < |vars| ==> vars[i] !in m
  {
    if vars != [] {
      CountAtMostOne(m, vars[..|vars| - 1]);
    }
  }

  /** The pairwise clauses, and with them the clause of all variables. */
  lemma PairMeaning(m: Assignment, vars: seq<int>, f: seq<seq<int>>)
    requires PairFormula(vars, f) && VarsPositive(vars)
    ensures Models(m, f) <==> Count(m, vars) <= 1
    ensures Models(m, f + [vars]) <==> Count(m, vars) == 1
  {
    PairAtMostOne(m, vars, f);
    ModelsConcat(m, f, [vars]);
    assert [vars][0] == vars;
    SomeTrue(m, vars);
    hide Satisfies;
    hide Count;
    hide PairFormula;
  }

  lemma SomeTrue(m: Assignment, vars: seq<int>)
    requires VarsPositive(vars)
    ensures Satisfies(m, vars) <==> Count(m, vars) > 0
  {
    CountAtMostOne(m, vars);
    hide Count;
    if Count(m, vars) > 0 {
      var i :| 0 <= i < |vars| && vars[i] in m;
      assert vars[i] in vars && Holds(m, vars[i]);
    }
  }

  lemma PairAtMostOne(m: Assignment, vars: seq<int>, f: seq<seq<int>>)
    requires PairFormula(vars, f) && VarsPositive(vars)
    ensures Models(m, f) <==> Count(m, vars) <= 1
  {
    CountAtMostOne(m, vars);
    hide Count;
    hide Satisfies;
    if Models(m, f) {
      forall i, j | 0 <= i < j < |vars| ensures !(vars[i] in m && vars[j] in m) {
        assert [-vars[i], -vars[j]] in f;
        PairClause(m, vars[i], vars[j]);
      }
    }
    hide VarsPositive;
    if Count(m, vars) <= 1 {
      PairsHold(m, vars, f);
    }
  }

  lemma PairClause(m: Assignment, x: int, y: int)
    requires x > 0 && y > 0
    ensures Satisfies(m, [-x, -y]) <==> !(x in m && y in m)
  {
    Two(m, -x, -y);
  }

  lemma PairsHold(m: Assignment, vars: seq<int>, f: seq<seq<int>>)
    requires PairFormula(vars, f) && VarsPositive(vars)
    requires forall i, j :: 0 <= i < j < |vars| ==> !(vars[i] in m && vars[j] in m)
    ensures Models(m, f)
  {
    hide Satisfies;
    forall c | c in f ensures Satisfies(m, c) {
      var i, j :| 0 <= i < j < |vars| && c == [-vars[i], -vars[j]];
      PairClause(m, vars[i], vars[j]);
    }
  }

  // ------------------------------------------------------------------ emission

  class Problem {
    var cnf: seq<seq<int>>
    var nextVar: int
    var numClauses: nat

    constructor (nextVar: int)
      ensures cnf == [] && this.nextVar == nextVar && numClauses == 0
    {
      cnf, this.nextVar, numClauses := [], nextVar, 0;
    }

    method Emit(c: seq<int>)
      modifies `cnf, `numClauses
      ensures cnf == old(cnf) + [c] && numClauses == old(numClauses) + 1
    {
      cnf := cnf + [c];
      numClauses := numClauses + 1;
    }

    method AuxVar() returns (v: int)
      modifies `nextVar
      ensures v == old(nextVar) && nextVar == old(nextVar) + 1
    {
      v := nextVar;
      nextVar := nextVar + 1;
    }

    method AuxVars(n: nat) returns (vars: seq<int>)
      modifies `nextVar
      ensures |vars| == n && nextVar == old(nextVar) + n && forall k :: 0 <= k < n ==> vars[k] == old(nextVar) + k
    {
      vars := [];
      for i := 0 to n
        invariant |vars| == i && nextVar == old(nextVar) + i && forall k :: 0 <= k < i ==> vars[k] == old(nextVar) + k
      {
        var v := AuxVar();
        vars := vars + [v];
      }
    }

    method EmitAtLeast(a: seq<int>, b: seq<int>, u: seq<int>) returns (ghost f: seq<seq<int>>)
      requires a != [] && b != [] && |u| == |a| + |b|
      modifies `cnf, `numClauses
      ensures cnf == old(cnf) + f && numClauses == old(numClauses) + |f|
      ensures forall c :: c in f <==> exists i, j :: 0 <= i <= |a| && 0 <= j <= |b| && c == AtLeast(a, b, u, i, j)
    {
      f := [];
      for i := 0 to |a| + 1
        invariant cnf == old(cnf) + f && numClauses == old(numClauses) + |f|
        invariant forall c :: c in f <==> exists k, j :: 0 <= k < i && 0 <= j <= |b| && c == AtLeast(a, b, u, k, j)
      {
        ghost var f0 := f;
        for j := 0 to |b| + 1
          invariant cnf == old(cnf) + f && numClauses == old(numClauses) + |f|
          invariant forall c :: c in f <==> c in f0 || exists l :: 0 <= l < j && c == AtLeast(a, b, u, i, l)
        {
          var c := [UnitaryIndexNegative(a, i), UnitaryIndexNegative(b, j), UnitaryIndex(u, i + j)];
          assert c == AtLeast(a, b, u, i, j);
          Emit(c);
          f := f + [c];
        }
      }
    }

    method EmitAtMost(a: seq<int>, b: seq<int>, u: seq<int>) returns (ghost f: seq<seq<int>>)
      requires a != [] && b != [] && |u| == |a| + |b|
      modifies `cnf, `numClauses
      ensures cnf == old(cnf) + f && numClauses == old(numClauses) + |f|
      ensures forall c :: c in f <==> exists i, j :: 1 <= i <= |a| && 1 <= j <= |b| && c == AtMost(a, b, u, i, j)
    {
      f := [];
      for i := 1 to |a| + 1
        invariant cnf == old(cnf) + f && numClauses == old(numClauses) + |f|
        invariant forall c :: c in f <==> exists k, j :: 1 <= k < i && 1 <= j <= |b| && c == AtMost(a, b, u, k, j)
      {
        ghost var f0 := f;
        for j := 1 to |b| + 1
          invariant cnf == old(cnf) + f && numClauses == old(numClauses) + |f|
          invariant forall c :: c in f <==> c in f0 || exists l :: 1 <= l < j && c == AtMost(a, b, u, i, l)
        {
          var c := [UnitaryIndex(a, i), UnitaryIndex(b, j), UnitaryIndexNegative(u, i + j - 1)];
          assert c == AtMost(a, b, u, i, j);
          Emit(c);
          f := f + [c];
        }
      }
    }

    /** For index 1 to |a|: not "at least index" of a implies not "at least index + shift" of u. */
    method EmitSide(a: seq<int>, shift: nat, u: seq<int>) returns (ghost f: seq<seq<int>>)
      requires a != [] && u != [] && |u| == |a| + shift
      modifies `cnf, `numClauses
      ensures cnf == old(cnf) + f && numClauses == old(numClauses) + |f|
      ensures forall c :: c in f <==> exists i :: 1 <= i <= |a| && c == [UnitaryIndex(a, i), UnitaryIndexNegative(u, i + shift)]
    {
      f := [];
      for i := 1 to |a| + 1
        invariant cnf == old(cnf) + f && numClauses == old(numClauses) + |f|
        invariant forall c :: c in f <==> exists k :: 1 <= k < i && c == [UnitaryIndex(a, k), UnitaryIndexNegative(u, k + shift)]
      {
        var c := [UnitaryIndex(a, i), UnitaryIndexNegative(u, i + shift)];
        Emit(c);
        f := f + [c];
      }
    }

    method EmitOrder(u: seq<int>) returns (ghost f: seq<seq<int>>)
      requires u != []
      modifies `cnf, `numClauses
      ensures cnf == old(cnf) + f && numClauses == old(numClauses) + |f|
      ensures forall c :: c in f <==> exists j :: 1 <= j < |u| && c == [UnitaryIndex(u, j), UnitaryIndexNegative(u, j + 1)]
    {
      f := [];
      for j := 1 to |u|
        invariant cnf == old(cnf) + f && numClauses == old(numClauses) + |f|
        invariant forall c :: c in f <==> exists k :: 1 <= k < j && c == [UnitaryIndex(u, k), UnitaryIndexNegative(u, k + 1)]
      {
        var c := [UnitaryIndex(u, j), UnitaryIndexNegative(u, j + 1)];
        Emit(c);
        f := f + [c];
      }
    }

    method EmitSum(a: seq<int>, b: seq<int>, u: seq<int>) returns (ghost f: seq<seq<int>>)
      requires a != [] && b != [] && |u| == |a| + |b|
      modifies `cnf, `numClauses
      ensures cnf == old(cnf) + f && numClauses == old(numClauses) + |f| && SumFormula(a, b, u, f)
    {
      hide AtLeast;
      hide AtMost;
      hide UnitaryIndex;
      hide UnitaryIndexNegative;
      ghost var f1 := EmitAtLeast(a, b, u);
      ghost var f2 := EmitAtMost(a, b, u);
      ghost var f3 := EmitSide(a, |b|, u);
      ghost var f4 := EmitSide(b, |a|, u);
      ghost var f5 := EmitOrder(u);
      f := f1 + f2 + f3 + f4 + f5;
      assert forall c :: c in f <==> c in f1 || c in f2 || c in f3 || c in f4 || c in f5;
    }

    /** add_cardinality_constraint: returns the unary count of the variables, least first. */
    method AddCardinalityConstraint(vars: seq<int>) returns (outs: seq<int>, ghost f: seq<seq<int>>)
      requires VarsBelow(vars, nextVar) && nextVar > 0
      modifies `cnf, `nextVar, `numClauses
      ensures cnf == old(cnf) + f && numClauses == old(numClauses) + |f|
      ensures Totals(vars, outs, old(nextVar), nextVar, f)
      decreases |vars|
    {
      if |vars| <= 1 {
        FewVars(vars, nextVar);
        return vars, [];
      }
      hide Totals;
      hide SumFormula;
      var mid := (|vars| + 1) / 2;
      var partA, partB := vars[..mid], vars[mid..];
      ghost var lo := nextVar;
      var a, fa := AddCardinalityConstraint(partA);
      ghost var m := nextVar;
      TotalsBounds(partA, a, lo, m, fa);
      var b, fb := AddCardinalityConstraint(partB);
      ghost var hi := nextVar;
      TotalsBounds(partB, b, m, hi, fb);
      outs := AuxVars(|a| + |b|);
      ghost var g := EmitSum(a, b, outs);
      f := fa + fb + g;
      TotalsSum(partA, partB, a, b, outs, lo, m, hi, fa, fb, g);
      assert partA + partB == vars;
    }

    /** The loop that brings the colours into order; unitary holds one unary number for each. */
    method EmitColourOrder(unitary: seq<seq<int>>, n: nat) returns (ghost f: seq<seq<int>>)
      requires unitary != [] && forall i :: 0 <= i < |unitary| ==> |unitary[i]| == n
      modifies `cnf, `numClauses
      ensures cnf == old(cnf) + f && numClauses == old(numClauses) + |f| && OrderFormula(unitary, f)
    {
      f := [];
      for i := 0 to |unitary| - 1
        invariant cnf == old(cnf) + f && numClauses == old(numClauses) + |f|
        invariant forall c :: c in f <==> exists k, j :: k < i && OrderClause(unitary, k, j, c)
      {
        ghost var f0 := f;
        for j := 0 to |unitary[i]|
          invariant cnf == old(cnf) + f && numClauses == old(numClauses) + |f|
          invariant forall c :: c in f <==> c in f0 || exists l :: l < j && OrderClause(unitary, i, l, c)
        {
          var c := [unitary[i][j], -unitary[i + 1][j]];
          assert OrderClause(unitary, i, j, c);
          Emit(c);
          f := f + [c];
        }
      }
    }

    /** add_colour_quantifier_symmetry_breaking; colours lists the edge variables of each colour. */
    method AddColourSymmetryBreaking(colours: seq<seq<int>>, n: nat) returns (ghost f: seq<seq<int>>)
      requires colours != [] && nextVar > 0 && forall i :: 0 <= i < |colours| ==> |colours[i]| == n && VarsBelow(colours[i], nextVar)
      modifies `cnf, `nextVar, `numClauses
      ensures cnf == old(cnf) + f
      ensures forall a: Assignment :: Extendable(old(nextVar), f, a) <==> NonIncreasing(a, colours)
    {
      hide AllTotals;
      hide Totals;
      hide Extendable;
      hide NonIncreasing;
      hide OrderFormula;
      var unitary: seq<seq<int>> := [];
      f := [];
      NoTotals(nextVar);
      for c := 0 to |colours|
        invariant cnf == old(cnf) + f && |unitary| == c && old(nextVar) <= nextVar
        invariant AllTotals(colours[..c], unitary, old(nextVar), nextVar, f)
      {
        ghost var mid := nextVar;
        WiderBelow(colours[c], old(nextVar), mid);
        var u, g := AddCardinalityConstraint(colours[c]);
        TotalsBounds(colours[c], u, mid, nextVar, g);
        MoreTotals(colours[..c], unitary, old(nextVar), mid, f, colours[c], u, nextVar, g);
        assert colours[..c + 1] == colours[..c] + [colours[c]];
        unitary := unitary + [u];
        f := f + g;
      }
      assert colours[..|colours|] == colours;
      AllTotalsSizes(colours, unitary, old(nextVar), nextVar, f);
      ghost var g := EmitColourOrder(unitary, n);
      forall a: Assignment ensures Extendable(old(nextVar), f + g, a) <==> NonIncreasing(a, colours) {
        ColoursOrdered(colours, unitary, old(nextVar), nextVar, f, g, n, a);
      }
      f := f + g;
    }

    /** print__at_most_one. */
    method AtMostOne(vars: seq<int>) returns (ghost f: seq<seq<int>>)
      modifies `cnf, `numClauses
      ensures cnf == old(cnf) + f && numClauses == old(numClauses) + |f| && PairFormula(vars, f)
    {
      f := [];
      for i := 0 to |vars|
        invariant cnf == old(cnf) + f && numClauses == old(numClauses) + |f|
        invariant forall c :: c in f <==> exists k, j :: 0 <= k < i && k < j < |vars| && c == [-vars[k], -vars[j]]
      {
        ghost var f0 := f;
        for j := i + 1 to |vars|
          invariant cnf == old(cnf) + f && numClauses == old(numClauses) + |f|
          invariant forall c :: c in f <==> c in f0 || exists l :: i < l < j && c == [-vars[i], -vars[l]]
        {
          var c := [-vars[i], -vars[j]];
          Emit(c);
          f := f + [c];
        }
      }
    }

    /** One level of the tree: neighbours are joined under a new variable, a lone last one is passed along. */
    method Level(tops: seq<int>, ghost inputs: seq<int>, ghost lo: int,
                 ghost f: seq<seq<int>>) returns (tops': seq<int>, ghost f': seq<seq<int>>)
      requires |tops| >= 2 && Forest(inputs, tops, lo, nextVar, f) && VarsBelow(inputs, lo) && nextVar > 0
      modifies `cnf, `nextVar, `numClauses
      ensures Forest(inputs, tops', lo, nextVar, f') && 1 <= |tops'| < |tops| && nextVar > 0
      ensures f <= f' && cnf == old(cnf) + f'[|f|..]
    {
      hide Forest;
      tops', f' := [], f;
      var i := 0;
      assert [] + tops[0..] == tops;
      while i < |tops|
        invariant 0 <= i <= |tops| && nextVar > 0 && (i % 2 == 0 || i == |tops|)
        invariant |tops'| == (i + 1) / 2
        invariant Forest(inputs, tops' + tops[i..], lo, nextVar, f')
        invariant f <= f' && cnf == old(cnf) + f'[|f|..]
      {
        if i + 1 < |tops| {
          var x, y := tops[i], tops[i + 1];
          assert tops[i..] == [x, y] + tops[i + 2..];
          assert tops' + tops[i..] == tops' + [x, y] + tops[i + 2..];
          ForestJoins(inputs, tops', x, y, tops[i + 2..], lo, nextVar, f');
          var aux := AuxVar();
          ghost var cnf0 := cnf;
          Emit([-x, -y]);
          Emit([-x, aux]);
          Emit([-y, aux]);
          Emit([x, y, -aux]);
          assert cnf == cnf0 + NodeClauses(x, y, aux);
          f' := f' + NodeClauses(x, y, aux);
          tops' := tops' + [aux];
          i := i + 2;
        } else {
          assert tops[i..] == [tops[i]] + tops[i + 1..];
          assert tops' + tops[i..] == tops' + [tops[i]] + tops[i + 1..];
          tops' := tops' + [tops[i]];
          i := i + 1;
        }
      }
      assert tops' + tops[i..] == tops';
    }

    /** print__tree_at_most_one: pairwise clauses and no root for fewer than four variables, and otherwise a tree. Before each
        level the set orders the tops anew, in a way that is left open here. */
    method TreeAtMostOne(vars: seq<int>) returns (root: int, ghost f: seq<seq<int>>)
      requires VarsBelow(vars, nextVar) && nextVar > 0
      modifies `cnf, `nextVar, `numClauses
      ensures cnf == old(cnf) + f
      ensures |vars| < 4 ==> root == -1 && PairFormula(vars, f)
      ensures |vars| >= 4 ==> Forest(vars, [root], old(nextVar), nextVar, f)
      ensures forall a: Assignment :: Extendable(old(nextVar), f, a) <==> Count(a, vars) <= 1
    {
      hide Forest;
      hide Count;
      hide Models;
      if |vars| < 4 {
        f := AtMostOne(vars);
        forall a: Assignment ensures Extendable(old(nextVar), f, a) <==> Count(a, vars) <= 1 {
          PairExtends(vars, f, old(nextVar), a);
        }
        return -1, f;
      }
      var tops := vars;
      f := [];
      ForestStart(vars, nextVar);
      while |tops| > 1
        invariant |tops| >= 1 && nextVar > 0 && cnf == old(cnf) + f && Forest(vars, tops, old(nextVar), nextVar, f)
        decreases |tops|
      {
        var items := Reordered(tops);
        ForestPermuted(vars, tops, items, old(nextVar), nextVar, f);
        ghost var f0 := f;
        tops, f := Level(items, vars, old(nextVar), f);
        assert f == f0 + f[|f0|..];
      }
      root := tops[0];
      assert tops == [root];
      forall a: Assignment ensures Extendable(old(nextVar), f, a) <==> Count(a, vars) <= 1 {
        TreeMeaning(vars, root, old(nextVar), nextVar, f, a);
      }
    }

    /** print__tree_exactly_one. */
    method TreeExactlyOne(vars: seq<int>) returns (ghost f: seq<seq<int>>)
      requires VarsBelow(vars, nextVar) && nextVar > 0
      modifies `cnf, `nextVar, `numClauses
      ensures cnf == old(cnf) + f
      ensures |vars| < 4 ==> f != [] && PairFormula(vars, f[..|f| - 1]) && f[|f| - 1] == vars && nextVar == old(nextVar)
      ensures |vars| >= 4 ==> f != [] && exists root :: Forest(vars, [root], old(nextVar), nextVar, f[..|f| - 1]) && f[|f| - 1] == [root]
      ensures forall a: Assignment :: Extendable(old(nextVar), f, a) <==> Count(a, vars) == 1
    {
      hide Forest;
      hide Count;
      hide Models;
      if |vars| < 4 {
        f := AtMostOne(vars);
        Emit(vars);
        forall a: Assignment ensures Extendable(old(nextVar), f + [vars], a) <==> Count(a, vars) == 1 {
          PairExtends(vars, f, old(nextVar), a);
        }
        f := f + [vars];
        return;
      }
      var root;
      root, f := TreeAtMostOne(vars);
      Emit([root]);
      forall a: Assignment ensures Extendable(old(nextVar), f + [[root]], a) <==> Count(a, vars) == 1 {
        TreeMeaning(vars, root, old(nextVar), nextVar, f, a);
      }
      f := f + [[root]];
    }
  }

  /** Some order of the items. */
  method Reordered(items: seq<int>) returns (r: seq<int>)
    ensures multiset(r) == multiset(items) && |r| == |items|
  {
    r := [];
    for i := 0 to |items|
      invariant multiset(r) == multiset(items[..i]) && |r| == i
    {
      var q :| 0 <= q <= |r|;
      assert r == r[..q] + r[q..];
      assert items[..i + 1] == items[..i] + [items[i]];
      r := r[..q] + [items[i]] + r[q..];
    }
    assert items[..|items|] == items;
  }

  lemma TotalsBounds(vars: seq<int>, outs: seq<int>, lo: int, hi: int, f: seq<seq<int>>)
    requires Totals(vars, outs, lo, hi, f)
    ensures |outs| == |vars| && lo <= hi && VarsBelow(outs, hi)
  {
  }

  lemma WiderBelow(vars: seq<int>, m: int, n: int)
    requires VarsBelow(vars, m) && m <= n
    ensures VarsBelow(vars, n)
  {
  }

  lemma AllTotalsSizes(groups: seq<seq<int>>, us: seq<seq<int>>, lo: int, hi: int, f: seq<seq<int>>)
    requires AllTotals(groups, us, lo, hi, f)
    ensures |us| == |groups| && forall i :: 0 <= i < |us| ==> |us[i]| == |groups[i]|
  {
  }

  lemma PairExtends(vars: seq<int>, f: seq<seq<int>>, n: int, a: Assignment)
    requires PairFormula(vars, f) && VarsBelow(vars, n)
    ensures Extendable(n, f, a) <==> Count(a, vars) <= 1
    ensures Extendable(n, f + [vars], a) <==> Count(a, vars) == 1
  {
    if Extendable(n, f, a) {
      var b: Assignment :| AgreeBelow(n, a, b) && Models(b, f);
      PairMeaning(b, vars, f);
      CountAgrees(n, a, b, vars);
    }
    if Extendable(n, f + [vars], a) {
      var b: Assignment :| AgreeBelow(n, a, b) && Models(b, f + [vars]);
      PairMeaning(b, vars, f);
      CountAgrees(n, a, b, vars);
    }
    PairMeaning(a, vars, f);
    assert AgreeBelow(n, a, a);
  }
}
