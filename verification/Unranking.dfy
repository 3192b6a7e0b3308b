/** Benchmarks/gensat/ggensata.c: binomial coefficients, unranking of variable sets and of sign vectors, random clauses. */
module Unranking {
  function Binomial(n: nat, k: nat): nat {
    if k == 0 then 1 else if n == 0 then 0 else Binomial(n - 1, k - 1) + Binomial(n - 1, k)
  }

  lemma {:induction false} BinomialZero(n: nat, k: nat)
    requires k > n
    ensures Binomial(n, k) == 0
  {
    if n > 0 {
      BinomialZero(n - 1, k - 1);
      BinomialZero(n - 1, k);
    }
  }

  lemma {:induction false} BinomialPositive(n: nat, k: nat)
    requires k <= n
    ensures Binomial(n, k) > 0
  {
    if k > 0 {
      BinomialPositive(n - 1, k - 1);
    }
  }

  /** Each step of cr divides exactly. */
  lemma {:induction false} Absorption(n: nat, k: nat)
    requires n >= 1 && k >= 1
    ensures k * Binomial(n, k) == n * Binomial(n - 1, k - 1)
  {
    if n == 1 {
      if k > 1 {
        BinomialZero(n, k);
        BinomialZero(n - 1, k - 1);
      }
    } else if k == 1 {
      Absorption(n - 1, 1);
    } else {
      Absorption(n - 1, k - 1);
      Absorption(n - 1, k);
      Absorbed(n, k, Binomial(n - 2, k - 2), Binomial(n - 2, k - 1), Binomial(n - 1, k));
    }
  }

  lemma Absorbed(n: nat, k: nat, a: nat, b: nat, d: nat)
    requires (k - 1) * (a + b) == (n - 1) * a && k * d == (n - 1) * b
    ensures k * (a + b + d) == n * (a + b)
  {
    assert k * (a + b + d) == (a + b) + (k - 1) * (a + b) + k * d;
    assert (n - 1) * (a + b) == (n - 1) * a + (n - 1) * b;
  }

  /** cr, with the double as a real number. */
  method Cr(n: int, p: int) returns (r: nat)
    ensures r == if n >= p >= 0 then Binomial(n, p) else 0
  {
    hide Binomial;
    if n >= p && p >= 0 {
      var c, j := 1.0, p - 1;
      ChooseNone(n - p);
      while j >= 0
        invariant -1 <= j <= p - 1 && c == Binomial(n - j - 1, p - j - 1) as real
      {
        Absorption(n - j, p - j);
        CrStep(Binomial(n - j - 1, p - j - 1), n - j, p - j, Binomial(n - j, p - j));
        c := c * (n - j) as real / (p - j) as real;
        j := j - 1;
      }
      return c.Floor;
    }
    return 0;
  }

  lemma ChooseNone(n: nat)
    ensures Binomial(n, 0) == 1
  {
  }

  lemma CrStep(c: nat, a: nat, b: nat, d: nat)
    requires b > 0 && b * d == a * c
    ensures c as real * a as real / b as real == d as real
  {
    assert (b * d) as real == b as real * d as real;
    assert (a * c) as real == a as real * c as real;
  }

  // ----------------------------------------------------------------- subsets

  /** All r-subsets of the numbers above lo up to n, as increasing sequences in lexicographic order. */
  function Subsets(lo: nat, n: nat, r: nat): (l: seq<seq<int>>)
    requires lo <= n
    ensures |l| == Binomial(n - lo, r)
    decreases n - lo
  {
    if r == 0 then [[]] else if lo == n then [] else Prepended(lo + 1, Subsets(lo + 1, n, r - 1)) + Subsets(lo + 1, n, r)
  }

  function Prepended(x: int, l: seq<seq<int>>): (m: seq<seq<int>>)
    ensures |m| == |l| && forall i :: 0 <= i < |l| ==> m[i] == [x] + l[i]
  {
    seq(|l|, i requires 0 <= i < |l| => [x] + l[i])
  }

  /** The subsets that start with lo + 1 come first. */
  lemma Split(lo: nat, n: nat, r: nat)
    requires lo < n && r > 0
    ensures Subsets(lo, n, r) == Prepended(lo + 1, Subsets(lo + 1, n, r - 1)) + Subsets(lo + 1, n, r)
  {
  }

  ghost predicate IsSubset(s: seq<int>, lo: nat, n: nat, r: nat) {
    && |s| == r && (forall k :: 0 <= k < r ==> lo < s[k] <= n)
    && forall j, k :: 0 <= j < k < r ==> s[j] < s[k]
  }

  ghost predicate LexLess(s: seq<int>, t: seq<int>) {
    exists p :: LessAt(s, t, p)
  }

  predicate LessAt(s: seq<int>, t: seq<int>, p: int) {
    0 <= p < |s| && p < |t| && s[..p] == t[..p] && s[p] < t[p]
  }

  /** Every entry is a subset. */
  lemma {:induction false} SubsetsSound(lo: nat, n: nat, r: nat, i: nat)
    requires lo <= n && i < |Subsets(lo, n, r)|
    ensures IsSubset(Subsets(lo, n, r)[i], lo, n, r)
    decreases n - lo
  {
    if r > 0 && lo < n {
      var c := Binomial(n - lo - 1, r - 1);
      if i < c {
        SubsetsSound(lo + 1, n, r - 1, i);
      } else {
        SubsetsSound(lo + 1, n, r, i - c);
      }
    }
  }

  /** Every subset has an index. */
  lemma {:induction false} SubsetsComplete(s: seq<int>, lo: nat, n: nat, r: nat) returns (i: nat)
    requires lo <= n && IsSubset(s, lo, n, r)
    ensures i < |Subsets(lo, n, r)| && Subsets(lo, n, r)[i] == s
    decreases n - lo
  {
    if r == 0 {
      return 0;
    }
    assert lo < s[0] <= n;
    if s[0] == lo + 1 {
      i := SubsetsComplete(s[1..], lo + 1, n, r - 1);
      assert s == [s[0]] + s[1..];
    } else {
      assert forall k :: 0 <= k < r ==> lo + 1 < s[k];
      var j := SubsetsComplete(s, lo + 1, n, r);
      i := Binomial(n - lo - 1, r - 1) + j;
    }
  }

  /** The list is in strict lexicographic order. */
  lemma {:induction false} SubsetsOrdered(lo: nat, n: nat, r: nat, i: nat, j: nat)
    requires lo <= n && i < j < |Subsets(lo, n, r)|
    ensures LexLess(Subsets(lo, n, r)[i], Subsets(lo, n, r)[j])
    decreases n - lo
  {
    assert r > 0 && lo < n;
    Split(lo, n, r);
    hide Subsets;
    hide Binomial;
    hide LexLess;
    var l := Subsets(lo, n, r);
    var c := |Subsets(lo + 1, n, r - 1)|;
    if j < c {
      SubsetsOrdered(lo + 1, n, r - 1, i, j);
      LexPrepended(lo + 1, Subsets(lo + 1, n, r - 1)[i], Subsets(lo + 1, n, r - 1)[j]);
    } else if i >= c {
      SubsetsOrdered(lo + 1, n, r, i - c, j - c);
    } else {
      SubsetsSound(lo + 1, n, r, j - c);
      assert l[j] == Subsets(lo + 1, n, r)[j - c] && l[i] == [lo + 1] + Subsets(lo + 1, n, r - 1)[i];
      assert r > 0 && l[j][0] > lo + 1 == l[i][0];
      FirstLess(l[i], l[j]);
    }
  }

  lemma FirstLess(s: seq<int>, t: seq<int>)
    requires s != [] && t != [] && s[0] < t[0]
    ensures LexLess(s, t)
  {
    assert LessAt(s, t, 0);
  }

  lemma LexPrepended(x: int, s: seq<int>, t: seq<int>)
    requires LexLess(s, t)
    ensures LexLess([x] + s, [x] + t)
  {
    var p :| LessAt(s, t, p);
    assert ([x] + s)[..p + 1] == [x] + s[..p] && ([x] + t)[..p + 1] == [x] + t[..p];
    assert LessAt([x] + s, [x] + t, p + 1);
  }

  lemma LexIrreflexive(s: seq<int>, t: seq<int>)
    ensures !(LexLess(s, t) && LexLess(t, s)) && !LexLess(s, s)
  {
    forall p, q | LessAt(s, t, p) && 0 <= q < |s| && q < |t| ensures !LessAt(t, s, q) {
      if q < p {
        assert s[..p][q] == t[..p][q];
      } else if q > p {
        assert s[..q][p] == s[p] && t[..q][p] == t[p];
      }
    }
  }

  /** The number of subsets before s. */
  ghost function Rank(n: nat, r: nat, s: seq<int>): nat {
    |set t | t in Subsets(0, n, r) && LexLess(t, s)|
  }

  /** The entry at k is the subset of rank k. */
  lemma RankOfEntry(n: nat, r: nat, k: nat)
    requires k < |Subsets(0, n, r)|
    ensures Rank(n, r, Subsets(0, n, r)[k]) == k
  {
    var l := Subsets(0, n, r);
    forall i, j | 0 <= i < j < |l| ensures LexLess(l[i], l[j]) {
      SubsetsOrdered(0, n, r, i, j);
    }
    var before := set t | t in l && LexLess(t, l[k]);
    hide Subsets;
    hide LexLess;
    forall t | t in before ensures t in l[..k] {
      var i :| 0 <= i < |l| && l[i] == t;
      LexIrreflexive(l[k], t);
      assert i < k;
      assert l[..k][i] == t;
    }
    forall i | 0 <= i < k ensures l[..k][i] in before {
      assert l[i] in l;
    }
    forall i, j | 0 <= i < j < k ensures l[..k][i] != l[..k][j] {
      LexIrreflexive(l[i], l[j]);
    }
    CountDistinct(l[..k], before);
  }

  lemma {:induction false} CountDistinct(l: seq<seq<int>>, s: set<seq<int>>)
    requires (forall i, j :: 0 <= i < j < |l| ==> l[i] != l[j]) && forall t :: t in s <==> t in l
    ensures |s| == |l|
  {
    if l == [] {
      assert s == {};
    } else {
      var n := |l| - 1;
      assert l[n] in l;
      forall t ensures t in s - {l[n]} <==> t in l[..n] {
        assert l == l[..n] + [l[n]];
      }
      CountDistinct(l[..n], s - {l[n]});
    }
  }

  /** Two subsets of the same rank are equal, and every rank below the binomial coefficient is taken. */
  lemma RankBijective(n: nat, r: nat, s: seq<int>, t: seq<int>)
    requires IsSubset(s, 0, n, r) && IsSubset(t, 0, n, r)
    ensures Rank(n, r, s) < Binomial(n, r)
    ensures Rank(n, r, s) == Rank(n, r, t) <==> s == t
  {
    var i := SubsetsComplete(s, 0, n, r);
    var j := SubsetsComplete(t, 0, n, r);
    RankOfEntry(n, r, i);
    RankOfEntry(n, r, j);
  }

  /** geneREP_comb: for a number below the binomial coefficient the subset of that rank. */
  method GeneRepComb(rep: array<int>, n: nat, r: nat, k: nat)
    requires r <= rep.Length && k < Binomial(n, r)
    modifies rep
    ensures IsSubset(rep[..r], 0, n, r) && Rank(n, r, rep[..r]) == k
    ensures rep[r..] == old(rep[r..])
  {
    hide Rank;
    hide IsSubset;
    hide Subsets;
    hide Binomial;
    hide Points;
    var kcr, i, i1 := k, 1, 1;
    ghost var goal := Subsets(0, n, r)[k];
    Start(goal, n, r, k);
    while i <= r
      invariant 1 <= i <= r + 1 && rep[r..] == old(rep[r..])
      invariant Points(goal, rep[..i - 1], i1, n, r - i + 1, kcr)
    {
      var ok := false;
      while !ok
        invariant 1 <= i <= r && rep[r..] == old(rep[r..])
        invariant !ok ==> Points(goal, rep[..i - 1], i1, n, r - i + 1, kcr)
        invariant ok ==> Points(goal, rep[..i], i1 + 1, n, r - i, kcr)
        decreases !ok, n + 1 - i1
      {
        InRange(goal, rep[..i - 1], i1, n, r - i + 1, kcr);
        var c := Cr(n - i1, r - i);
        CrIsBinomial(n - i1, r - i);
        ghost var front := rep[..i - 1];
        if kcr < c {
          rep[i - 1] := i1;
          assert rep[..i] == front + [i1];
          TakeNumber(goal, front, i1, n, r - i + 1, kcr);
          ok := true;
        } else {
          SkipNumber(goal, front, i1, n, r - i + 1, kcr);
          kcr := kcr - c;
          i1 := i1 + 1;
        }
      }
      i1, i := i1 + 1, i + 1;
    }
    assert rep[..i - 1] == rep[..r];
    Finished(goal, rep[..r], i1, n, kcr);
    SubsetsSound(0, n, r, k);
    RankOfEntry(n, r, k);
  }

  /** The goal starts with front; the rest of it is the entry at k of the m-subsets of the numbers from x on. */
  ghost predicate Points(goal: seq<int>, front: seq<int>, x: int, n: nat, m: nat, k: int) {
    1 <= x <= n + 1 && 0 <= k < |Subsets(x - 1, n, m)| && goal == front + Subsets(x - 1, n, m)[k]
  }

  lemma Start(goal: seq<int>, n: nat, r: nat, k: nat)
    requires k < |Subsets(0, n, r)| && goal == Subsets(0, n, r)[k]
    ensures Points(goal, [], 1, n, r, k)
  {
    assert [] + goal == goal;
  }

  lemma InRange(goal: seq<int>, front: seq<int>, x: int, n: nat, m: nat, k: int)
    requires Points(goal, front, x, n, m, k) && m > 0
    ensures 1 <= x <= n && k >= 0
  {
  }

  lemma TakeNumber(goal: seq<int>, front: seq<int>, x: int, n: nat, m: nat, k: int)
    requires Points(goal, front, x, n, m, k) && m > 0 && 1 <= x <= n && k < Binomial(n - x, m - 1)
    ensures Points(goal, front + [x], x + 1, n, m - 1, k)
  {
    Split(x - 1, n, m);
    hide Subsets;
    hide Binomial;
    assert Subsets(x - 1, n, m)[k] == [x] + Subsets(x, n, m - 1)[k];
  }

  lemma SkipNumber(goal: seq<int>, front: seq<int>, x: int, n: nat, m: nat, k: int)
    requires Points(goal, front, x, n, m, k) && m > 0 && 1 <= x <= n && k >= Binomial(n - x, m - 1)
    ensures Points(goal, front, x + 1, n, m, k - Binomial(n - x, m - 1))
  {
    Split(x - 1, n, m);
    hide Subsets;
    hide Binomial;
    var first, second := Subsets(x, n, m - 1), Subsets(x, n, m);
    assert |Prepended(x, first)| == |first| == Binomial(n - x, m - 1);
    hide Prepended;
    assert (Prepended(x, first) + second)[k] == second[k - |first|];
  }

  lemma Finished(goal: seq<int>, front: seq<int>, x: int, n: nat, k: int)
    requires Points(goal, front, x, n, 0, k)
    ensures goal == front
  {
  }

  lemma CrIsBinomial(n: nat, p: nat)
    ensures (if n >= p >= 0 then Binomial(n, p) else 0) == Binomial(n, p)
  {
    if n < p {
      BinomialZero(n, p);
    }
  }

  // ------------------------------------------------------------------- signs

  function Pow(x: int, r: nat): int {
    if r == 0 then 1 else Pow(x, r - 1) * x
  }

  lemma {:induction false} PowPositive(r: nat)
    ensures Pow(2, r) > 0
  {
    if r > 0 {
      PowPositive(r - 1);
    }
  }

  /** powi for an exponent that is not negative. */
  method Powi(x: int, r: nat) returns (pw: int)
    ensures pw == Pow(x, r)
  {
    pw := 1;
    for i := 1 to r + 1
      invariant pw == Pow(x, i - 1)
    {
      pw := pw * x;
    }
  }

  predicate IsSigns(s: seq<int>) {
    forall k :: 0 <= k < |s| ==> s[k] == 1 || s[k] == -1
  }

  /** The binary number of the signs, first sign most significant, -1 standing for one. */
  function Value(s: seq<int>): nat {
    if s == [] then 0 else 2 * Value(s[..|s| - 1]) + if s[|s| - 1] == -1 then 1 else 0
  }

  lemma {:induction false} ValueInjective(s: seq<int>, t: seq<int>)
    requires |s| == |t| && IsSigns(s) && IsSigns(t)
    ensures Value(s) < Pow(2, |s|)
    ensures Value(s) == Value(t) <==> s == t
  {
    if s != [] {
      var n := |s| - 1;
      ValueInjective(s[..n], t[..n]);
      assert s == s[..n] + [s[n]] && t == t[..n] + [t[n]];
    }
  }

  /** geneREP_inst: the signs that spell ir, or all of them negative if ir is too large. */
  method GeneRepInst(rep: array<int>, n: nat, ir: nat)
    requires n <= rep.Length
    modifies rep
    ensures IsSigns(rep[..n]) && rep[n..] == old(rep[n..])
    ensures Value(rep[..n]) == if ir < Pow(2, n) then ir else Pow(2, n) - 1
  {
    var rest := ir;
    for j := 1 to n + 1
      invariant IsSigns(rep[..j - 1]) && rep[n..] == old(rep[n..])
      invariant Value(rep[..j - 1]) * Pow(2, n - j + 1) + rest == ir && rest >= 0
      invariant ir < Pow(2, n) ==> rest < Pow(2, n - j + 1)
      invariant ir >= Pow(2, n) ==> rest >= Pow(2, n - j + 1) && Value(rep[..j - 1]) == Pow(2, j - 1) - 1
    {
      ghost var front := rep[..j - 1];
      var half := Powi(2, n - j);
      PowPositive(n - j);
      assert Pow(2, n - j + 1) == 2 * half;
      if rest < half {
        rep[j - 1] := 1;
      } else {
        rep[j - 1] := -1;
        rest := rest - half;
      }
      assert rep[..j] == front + [rep[j - 1]];
      SpellStep(front, rep[j - 1], half);
    }
  }

  lemma SpellStep(front: seq<int>, x: int, half: int)
    ensures Value(front + [x]) * half == Value(front) * (2 * half) + if x == -1 then half else 0
    ensures Value(front + [x]) == 2 * Value(front) + if x == -1 then 1 else 0
  {
    assert (front + [x])[..|front + [x]| - 1] == front;
    Distribute(Value(front), if x == -1 then 1 else 0, half);
    hide Value;
  }

  lemma Distribute(v: int, bit: int, half: int)
    requires 0 <= bit <= 1
    ensures (2 * v + bit) * half == v * (2 * half) + if bit == 1 then half else 0
  {
    assert (2 * v) * half == v * (2 * half);
  }

  // ----------------------------------------------------------------- clauses

  const WORD: nat := 0x1_0000_0000_0000_0000

  /** private_random: the generator runs in unsigned 64 bit arithmetic. */
  function Next(state: nat): nat {
    (state * 1103515245 + 12345) % WORD
  }

  function Sign(x: int): int {
    if x < 0 then -1 else 1
  }

  function Vars(c: seq<int>): seq<int> {
    seq(|c|, k requires 0 <= k < |c| => c[k] * Sign(c[k]))
  }

  function Signs(c: seq<int>): seq<int> {
    seq(|c|, k requires 0 <= k < |c| => Sign(c[k]))
  }

  /** A clause over r different variables among 1 to n, in the order of the variables. */
  ghost predicate IsClause(c: seq<int>, n: nat, r: nat) {
    IsSubset(Vars(c), 0, n, r)
  }

  /** The clause of rank k among the variable sets and of value ir among the signs. */
  ghost predicate Codes(c: seq<int>, n: nat, r: nat, k: nat, ir: int) {
    IsClause(c, n, r) && Rank(n, r, Vars(c)) == k && Value(Signs(c)) == ir
  }

  /** Pairs of numbers and clauses correspond one to one. */
  lemma ClauseCodes(c: seq<int>, d: seq<int>, n: nat, r: nat)
    requires IsClause(c, n, r) && IsClause(d, n, r)
    ensures Rank(n, r, Vars(c)) < Binomial(n, r) && Value(Signs(c)) < Pow(2, r)
    ensures Rank(n, r, Vars(c)) == Rank(n, r, Vars(d)) && Value(Signs(c)) == Value(Signs(d)) <==> c == d
  {
    RankBijective(n, r, Vars(c), Vars(d));
    ValueInjective(Signs(c), Signs(d));
    hide Rank;
    hide Value;
    hide Binomial;
    hide Pow;
    if Vars(c) == Vars(d) && Signs(c) == Signs(d) {
      forall k | 0 <= k < |c| ensures c[k] == d[k] {
        assert Vars(c)[k] == Vars(d)[k] && Signs(c)[k] == Signs(d)[k];
      }
      assert |c| == |Vars(c)| == |d|;
      assert c == d;
    }
  }

  lemma ProductCodes(vars: seq<int>, signs: seq<int>, n: nat, r: nat, k: nat, ir: nat)
    requires IsSubset(vars, 0, n, r) && IsSigns(signs) && |signs| == |vars| && Rank(n, r, vars) == k && Value(signs) == ir
    ensures Codes(Product(vars, signs), n, r, k, ir)
  {
    var c := Product(vars, signs);
    forall k | 0 <= k < r ensures Vars(c)[k] == vars[k] && Signs(c)[k] == signs[k] {
      assert signs[k] == 1 || signs[k] == -1;
      assert c[k] == vars[k] || c[k] == -vars[k];
    }
    assert Vars(c) == vars && Signs(c) == signs;
    hide Rank;
    hide Value;
  }

  lemma {:induction false} SignsExist(n: nat, v: nat) returns (s: seq<int>)
    requires v < Pow(2, n)
    ensures |s| == n && IsSigns(s) && Value(s) == v
  {
    if n == 0 {
      return [];
    }
    var t := SignsExist(n - 1, v / 2);
    s := t + [if v % 2 == 1 then -1 else 1];
    assert s[..|s| - 1] == t;
  }

  /** Every pair of numbers in range codes a clause. */
  lemma ClauseExists(n: nat, r: nat, k: nat, ir: nat) returns (c: seq<int>)
    requires k < Binomial(n, r) && ir < Pow(2, r)
    ensures Codes(c, n, r, k, ir)
  {
    var vars := Subsets(0, n, r)[k];
    SubsetsSound(0, n, r, k);
    RankOfEntry(n, r, k);
    var signs := SignsExist(r, ir);
    c := Product(vars, signs);
    ProductCodes(vars, signs, n, r, k, ir);
    hide Codes;
    hide Rank;
    hide Value;
    hide Subsets;
  }

  /** The first loop of main for one seed: the variables of the clauses. */
  method GenerateSets(n: nat, p: nat, r: nat, seed: nat) returns (sets: seq<seq<int>>)
    requires r <= n && seed < WORD
    ensures |sets| == p && Binomial(n, r) > 0
    ensures forall i :: 0 <= i < p ==> IsSubset(sets[i], 0, n, r) && Rank(n, r, sets[i]) == Nexts(seed, i + 1) % Binomial(n, r)
  {
    hide Rank;
    hide IsSubset;
    hide Binomial;
    hide Next;
    var rep := new int[r];
    var combinations := Cr(n, r);
    BinomialPositive(n, r);
    var rand := seed;
    sets := [];
    for i := 0 to p
      invariant |sets| == i && rand == Nexts(seed, i)
      invariant forall j :: 0 <= j < i ==> IsSubset(sets[j], 0, n, r) && Rank(n, r, sets[j]) == Nexts(seed, j + 1) % combinations
    {
      rand := Next(rand);
      var k := rand % combinations;
      GeneRepComb(rep, n, r, k);
      sets := sets + [rep[..r]];
    }
  }

  /** The two loops of main for one seed: each clause is the one coded by the numbers drawn for it. */
  method Generate(n: nat, p: nat, r: nat, seed: nat) returns (sat: seq<seq<int>>)
    requires r <= n && seed < WORD
    ensures |sat| == p && Binomial(n, r) > 0
    ensures forall i :: 0 <= i < p ==>
      Codes(sat[i], n, r, Nexts(seed, i + 1) % Binomial(n, r), Nexts(seed, i + 1) % 32768 * Pow(2, r) / 32768)
  {
    hide Codes;
    hide Rank;
    hide IsSubset;
    hide IsSigns;
    hide Binomial;
    hide Pow;
    hide Next;
    hide Value;
    var sets := GenerateSets(n, p, r, seed);
    var rep := new int[r];
    var randomax := Powi(2, r);
    PowPositive(r);
    var rand := seed;
    sat := [];
    for i := 0 to p
      invariant |sat| == i && rand == Nexts(seed, i)
      invariant forall j :: 0 <= j < i ==>
        Codes(sat[j], n, r, Nexts(seed, j + 1) % Binomial(n, r), Nexts(seed, j + 1) % 32768 * randomax / 32768)
    {
      rand := Next(rand);
      var ir := rand % 32768 * randomax / 32768;
      Scaled(rand % 32768, randomax);
      GeneRepInst(rep, r, ir);
      SubsetLength(sets[i], n, r);
      var signs := rep[..r];
      var c := Product(sets[i], signs);
      ProductCodes(sets[i], signs, n, r, Nexts(seed, i + 1) % Binomial(n, r), ir);
      sat := sat + [c];
    }
  }

  function Product(vars: seq<int>, signs: seq<int>): (c: seq<int>)
    requires |vars| == |signs|
  {
    seq(|vars|, k requires 0 <= k < |vars| => vars[k] * signs[k])
  }

  function Nexts(seed: nat, i: nat): nat {
    if i == 0 then seed else Next(Nexts(seed, i - 1))
  }

  lemma Scaled(x: nat, m: nat)
    requires x < 32768 && m > 0
    ensures 0 <= x * m / 32768 < m
  {
    assert x * m < 32768 * m;
    assert x * m / 32768 * 32768 <= x * m;
  }

  lemma SubsetLength(s: seq<int>, n: nat, r: nat)
    requires IsSubset(s, 0, n, r)
    ensures |s| == r
  {
  }
}
