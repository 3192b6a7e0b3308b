/** Benchmarks/determinant/determinant.py: clauses that say a binary matrix times an integer matrix in two's complement is
    a positive multiple of the identity. */
module Determinant {
  import opened Logic

  // ------------------------------------------------------- two's complement

  function Pow2(n: nat): (p: int)
    ensures p >= 1
  {
    if n == 0 then 1 else 2 * Pow2(n - 1)
  }

  /** The value of a word of bits, least significant first. */
  function Unsigned(x: seq<bool>): (v: nat)
    ensures v < Pow2(|x|)
  {
    if x == [] then 0 else Unsigned(x[..|x| - 1]) + if x[|x| - 1] then Pow2(|x| - 1) else 0
  }

  function Signed(x: seq<bool>): int
    requires x != []
  {
    Unsigned(x[..|x| - 1]) - if x[|x| - 1] then Pow2(|x| - 1) else 0
  }

  predicate Fits(v: int, w: nat)
    requires w >= 1
  {
    -Pow2(w - 1) <= v < Pow2(w - 1)
  }

  function Natural(v: nat, n: nat): (x: seq<bool>)
    requires v < Pow2(n)
    ensures |x| == n && Unsigned(x) == v
  {
    if n == 0 then []
    else if v >= Pow2(n - 1) then NaturalTop(Natural(v - Pow2(n - 1), n - 1), true)
    else NaturalTop(Natural(v, n - 1), false)
  }

  function NaturalTop(x: seq<bool>, top: bool): (y: seq<bool>)
    ensures |y| == |x| + 1 && Unsigned(y) == Unsigned(x) + if top then Pow2(|x|) else 0
  {
    assert (x + [top])[..|x|] == x;
    x + [top]
  }

  /** The word for an integer. */
  function ToWord(v: int, w: nat): (x: seq<bool>)
    requires w >= 1 && Fits(v, w)
    ensures |x| == w && Signed(x) == v
  {
    var low := Natural(if v < 0 then v + Pow2(w - 1) else v, w - 1);
    assert (low + [v < 0])[..w - 1] == low;
    low + [v < 0]
  }

  lemma {:induction false} UnsignedZero(x: seq<bool>)
    ensures Unsigned(x) == 0 <==> forall b :: 0 <= b < |x| ==> !x[b]
  {
    if x != [] {
      UnsignedZero(x[..|x| - 1]);
    }
  }

  lemma {:induction false} UnsignedInjective(x: seq<bool>, y: seq<bool>)
    requires |x| == |y| && Unsigned(x) == Unsigned(y)
    ensures x == y
  {
    if x != [] {
      var n := |x| - 1;
      UnsignedInjective(x[..n], y[..n]);
      assert x == x[..n] + [x[n]] && y == y[..n] + [y[n]];
    }
  }

  lemma SignedInjective(x: seq<bool>, y: seq<bool>)
    requires |x| == |y| >= 1 && Signed(x) == Signed(y)
    ensures x == y
  {
    var n := |x| - 1;
    UnsignedInjective(x[..n], y[..n]);
    assert x == x[..n] + [x[n]] && y == y[..n] + [y[n]];
  }

  lemma SignedRange(x: seq<bool>)
    requires x != []
    ensures Fits(Signed(x), |x|)
  {
  }

  lemma SignedZero(x: seq<bool>)
    requires x != []
    ensures Signed(x) == 0 <==> forall b :: 0 <= b < |x| ==> !x[b]
  {
    UnsignedZero(x[..|x| - 1]);
  }

  lemma SignedPositive(x: seq<bool>)
    requires x != []
    ensures Signed(x) > 0 <==> !x[|x| - 1] && exists b :: 0 <= b < |x| && x[b]
  {
    UnsignedZero(x[..|x| - 1]);
    assert forall b :: 0 <= b < |x| - 1 ==> x[..|x| - 1][b] == x[b];
  }

  // ----------------------------------------------------------------- adders

  predicate Odd(a: bool, b: bool, c: bool) {
    (a != b) != c
  }

  predicate Majority(a: bool, b: bool, c: bool) {
    (a && b) || (a && c) || (b && c)
  }

  /** The first i positions of z and c are the sums and carries of x and y. */
  predicate Chain(x: seq<bool>, y: seq<bool>, z: seq<bool>, c: seq<bool>, i: nat)
    requires i <= |x| && i <= |y| && i <= |z| && i <= |c|
  {
    && (i > 0 ==> z[0] == (x[0] != y[0]) && c[0] == (x[0] && y[0]))
    && forall b :: 1 <= b < i ==> z[b] == Odd(x[b], y[b], c[b - 1]) && c[b] == Majority(x[b], y[b], c[b - 1])
  }

  lemma {:induction false} ChainSum(x: seq<bool>, y: seq<bool>, z: seq<bool>, c: seq<bool>, i: nat)
    requires 1 <= i <= |x| && i <= |y| && i <= |z| && i <= |c| && Chain(x, y, z, c, i)
    ensures Unsigned(x[..i]) + Unsigned(y[..i]) == Unsigned(z[..i]) + if c[i - 1] then Pow2(i) else 0
  {
    var n := i - 1;
    assert x[..i][..n] == x[..n] && y[..i][..n] == y[..n] && z[..i][..n] == z[..n];
    if i > 1 {
      ChainSum(x, y, z, c, n);
      assert z[n] == Odd(x[n], y[n], c[n - 1]) && c[n] == Majority(x[n], y[n], c[n - 1]);
    } else {
      assert x[..n] == [] && y[..n] == [] && z[..n] == [];
    }
  }

  /** The whole adder: the chain, and in the top position the sum with the signs protected against overflow. */
  predicate Adds(x: seq<bool>, y: seq<bool>, z: seq<bool>, c: seq<bool>) {
    && |x| == |y| == |z| == |c| + 1 >= 2 && Chain(x, y, z, c, |c|)
    && var t := |c|;
    z[t] == Odd(x[t], y[t], c[t - 1]) && (x[t] && y[t] ==> z[t]) && (!x[t] && !y[t] ==> !z[t])
  }

  /** The adder is right: what it accepts is the sum of the integers. */
  lemma AdderSound(x: seq<bool>, y: seq<bool>, z: seq<bool>, c: seq<bool>)
    requires Adds(x, y, z, c)
    ensures Signed(z) == Signed(x) + Signed(y)
  {
    ChainSum(x, y, z, c, |c|);
  }

  function Carries(x: seq<bool>, y: seq<bool>, i: nat): (c: seq<bool>)
    requires i <= |x| && i <= |y|
    ensures |c| == i
  {
    if i == 0 then []
    else
      var front := Carries(x, y, i - 1);
      front + [if i == 1 then x[0] && y[0] else Majority(x[i - 1], y[i - 1], front[i - 2])]
  }

  function SumBits(x: seq<bool>, y: seq<bool>, c: seq<bool>): (z: seq<bool>)
    requires |x| == |y| == |c| + 1
    ensures |z| == |x|
  {
    seq(|x|, b requires 0 <= b < |x| => if b == 0 then x[0] != y[0] else Odd(x[b], y[b], c[b - 1]))
  }

  lemma {:induction false} CarriesChain(x: seq<bool>, y: seq<bool>, i: nat)
    requires i <= |x| && i <= |y|
    ensures var c := Carries(x, y, i);
      && (i > 0 ==> c[0] == (x[0] && y[0]))
      && forall b :: 1 <= b < i ==> c[b] == Majority(x[b], y[b], c[b - 1])
  {
    if i > 0 {
      CarriesChain(x, y, i - 1);
    }
  }

  /** The adder is complete: a sum that fits is accepted. */
  lemma AdderComplete(x: seq<bool>, y: seq<bool>)
    requires |x| == |y| >= 2 && Fits(Signed(x) + Signed(y), |x|)
    ensures var c := Carries(x, y, |x| - 1); Adds(x, y, SumBits(x, y, c), c)
  {
    hide Chain;
    hide SumBits;
    hide Carries;
    hide Unsigned;
    var t := |x| - 1;
    var c := Carries(x, y, t);
    var z := SumBits(x, y, c);
    SumChain(x, y, t);
    ChainSum(x, y, z, c, t);
    NoOverflow(x[t], y[t], c[t - 1], Unsigned(z[..t]), Pow2(t));
    SumTop(x, y, c);
  }

  lemma SumChain(x: seq<bool>, y: seq<bool>, t: nat)
    requires |x| == |y| == t + 1
    ensures var c := Carries(x, y, t); Chain(x, y, SumBits(x, y, c), c, t)
  {
    CarriesChain(x, y, t);
    hide Carries;
    hide Odd;
    hide Majority;
  }

  lemma NoOverflow(x: bool, y: bool, c: bool, u: int, p: int)
    requires 0 <= u < p && -p <= u + (if c then p else 0) - (if x then p else 0) - (if y then p else 0) < p
    ensures (x && y ==> c) && (!x && !y ==> !c)
  {
  }

  lemma SumTop(x: seq<bool>, y: seq<bool>, c: seq<bool>)
    requires |x| == |y| == |c| + 1 >= 2
    ensures SumBits(x, y, c)[|c|] == Odd(x[|c|], y[|c|], c[|c| - 1])
  {
  }

  // -------------------------------------------------------------- xor clauses

  /** An odd number of the literals of c hold. */
  ghost predicate OddlyMany(a: Assignment, c: seq<int>) {
    c != [] && OddlyMany(a, c[..|c| - 1]) != Holds(a, c[|c| - 1])
  }

  /** Bit j of i is set. */
  predicate BitSet(i: nat, j: nat) {
    (i / Pow2(j)) % 2 == 1
  }

  function XorFront(clause: seq<int>, i: nat, n: nat): (c: seq<int>)
    requires n <= |clause|
    ensures |c| == n
  {
    if n == 0 then [] else XorFront(clause, i, n - 1) + [if BitSet(i, n - 1) then clause[n - 1] else -clause[n - 1]]
  }

  /** The product of the signs of the first n literals is positive. */
  predicate XorSign(i: nat, n: nat) {
    n == 0 || XorSign(i, n - 1) == BitSet(i, n - 1)
  }

  function XorClause(clause: seq<int>, i: nat): seq<int>
    requires clause != []
  {
    var n := |clause| - 1;
    XorFront(clause, i, n) + [if XorSign(i, n) then clause[n] else -clause[n]]
  }

  lemma {:induction false} BitOfUnsigned(x: seq<bool>, j: nat)
    requires j < |x|
    ensures BitSet(Unsigned(x), j) == x[j]
  {
    var n := |x| - 1;
    var u := Unsigned(x[..n]);
    if j < n {
      BitOfUnsigned(x[..n], j);
      if x[n] {
        PowSum(n - j, j);
        EvenMore(u, Pow2(j), Pow2(n - j - 1));
      }
    } else {
      SmallQuotient(u, Pow2(n), x[n]);
    }
  }

  lemma {:induction false} PowSum(a: nat, b: nat)
    ensures Pow2(a + b) == Pow2(a) * Pow2(b)
  {
    if a > 0 {
      PowSum(a - 1, b);
    }
  }

  lemma EvenMore(u: nat, p: int, k: int)
    requires p >= 1 && k >= 1
    ensures (u + 2 * k * p) / p % 2 == u / p % 2
  {
    var q, r := u / p, u % p;
    assert u + 2 * k * p == (q + 2 * k) * p + r;
    QuotientIs(u + 2 * k * p, p, q + 2 * k, r);
  }

  lemma SmallQuotient(u: nat, p: int, top: bool)
    requires u < p
    ensures (u + if top then p else 0) / p == if top then 1 else 0
  {
    QuotientIs(u + if top then p else 0, p, if top then 1 else 0, u);
  }

  lemma QuotientIs(a: int, p: int, q: int, r: int)
    requires p >= 1 && a == q * p + r && 0 <= r < p
    ensures a / p == q
  {
    var k := a / p;
    assert a == k * p + a % p;
    Multiples(q + 1, k, p);
    Multiples(k + 1, q, p);
    assert (q + 1) * p == q * p + p && (k + 1) * p == k * p + p;
  }

  lemma Multiples(x: int, y: int, p: int)
    requires p >= 1
    ensures x <= y ==> x * p <= y * p
  {
  }

  /** Clause i fails exactly when every literal does. */
  lemma {:induction false} XorFrontFails(a: Assignment, clause: seq<int>, i: nat, n: nat)
    requires n <= |clause| && forall j :: 0 <= j < |clause| ==> clause[j] != 0
    ensures Satisfies(a, XorFront(clause, i, n)) <==> exists j :: 0 <= j < n && (Holds(a, clause[j]) <==> BitSet(i, j))
  {
    if n > 0 {
      XorFrontFails(a, clause, i, n - 1);
      var l := if BitSet(i, n - 1) then clause[n - 1] else -clause[n - 1];
      AppendOne(a, XorFront(clause, i, n - 1), l);
    }
  }

  lemma AppendOne(a: Assignment, c: seq<int>, l: int)
    ensures Satisfies(a, c + [l]) <==> Satisfies(a, c) || Holds(a, l)
  {
    assert (c + [l])[|c|] == l;
    assert forall x :: x in c + [l] <==> x in c || x == l;
  }

  /** If every literal fails, the sign of the front is positive exactly when evenly many of its literals hold. */
  lemma {:induction false} SignParity(a: Assignment, clause: seq<int>, i: nat, n: nat)
    requires n <= |clause| && forall j :: 0 <= j < n ==> (Holds(a, clause[j]) <==> !BitSet(i, j))
    ensures XorSign(i, n) <==> !OddlyMany(a, clause[..n])
  {
    if n > 0 {
      SignParity(a, clause, i, n - 1);
      assert clause[..n][..n - 1] == clause[..n - 1];
    }
  }

  lemma XorClauseFails(a: Assignment, clause: seq<int>, i: nat)
    requires clause != [] && forall j :: 0 <= j < |clause| ==> clause[j] != 0
    ensures var n := |clause| - 1; !Satisfies(a, XorClause(clause, i)) <==>
      (forall j :: 0 <= j < n ==> (Holds(a, clause[j]) <==> !BitSet(i, j))) && (Holds(a, clause[n]) <==> !XorSign(i, n))
  {
    var n := |clause| - 1;
    XorFrontFails(a, clause, i, n);
    AppendOne(a, XorFront(clause, i, n), if XorSign(i, n) then clause[n] else -clause[n]);
  }

  /** The 2^(L-1) clauses say that an odd number of the L literals hold. */
  lemma XorMeaning(a: Assignment, clause: seq<int>)
    requires clause != [] && forall j :: 0 <= j < |clause| ==> clause[j] != 0
    ensures (forall i :: 0 <= i < Pow2(|clause| - 1) ==> Satisfies(a, XorClause(clause, i))) <==> OddlyMany(a, clause)
  {
    var n := |clause| - 1;
    hide XorClause;
    hide BitSet;
    if !OddlyMany(a, clause) {
      var bits := seq(n, j requires 0 <= j < n => !Holds(a, clause[j]));
      var i := Unsigned(bits);
      forall j | 0 <= j < n ensures Holds(a, clause[j]) <==> !BitSet(i, j) {
        BitOfUnsigned(bits, j);
      }
      SignParity(a, clause, i, n);
      XorClauseFails(a, clause, i);
    } else {
      forall i | 0 <= i < Pow2(n) ensures Satisfies(a, XorClause(clause, i)) {
        XorClauseFails(a, clause, i);
        if forall j :: 0 <= j < n ==> (Holds(a, clause[j]) <==> !BitSet(i, j)) {
          SignParity(a, clause, i, n);
        }
      }
    }
  }

  // ----------------------------------------------------------------- the keys

  /** The integers: the inverse's elements, these gated by the matrix, and the partial sums of the products. */
  datatype Stem = Inverse(k: nat, c: nat) | Gated(k: nat, r: nat, c: nat) | Sum(k: nat, r: nat, c: nat)

  datatype Key = Entry(r: nat, k: nat) | Bit(stem: Stem, b: nat) | Carry(v1: Stem, v2: Stem, b: nat)

  type Reading = Key -> bool

  /** The assignment a gives the numbered keys the values of the reading. */
  ghost predicate Agrees(vars: map<Key, int>, a: Assignment, reading: Reading) {
    forall k :: k in vars ==> (reading(k) <==> vars[k] in a)
  }

  /** Where vars numbers the keys, the clauses g say what f says and that the reading satisfies p. */
  ghost predicate Encodes(vars: map<Key, int>, f: seq<seq<int>>, g: seq<seq<int>>, p: Reading -> bool) {
    forall a: Assignment, reading: Reading :: Agrees(vars, a, reading) ==> (Models(a, g) <==> Models(a, f) && p(reading))
  }

  ghost predicate Extends(vars: map<Key, int>, vars': map<Key, int>) {
    forall k :: k in vars ==> k in vars' && vars'[k] == vars[k]
  }

  lemma EncodesMore(vars: map<Key, int>, vars': map<Key, int>, f: seq<seq<int>>, g: seq<seq<int>>, h: seq<seq<int>>,
                    p: Reading -> bool, q: Reading -> bool, pq: Reading -> bool)
    requires Encodes(vars, f, g, p) && Extends(vars, vars') && Encodes(vars', g, h, q)
    requires forall reading: Reading :: pq(reading) <==> p(reading) && q(reading)
    ensures Encodes(vars', f, h, pq)
  {
    forall a: Assignment, reading: Reading | Agrees(vars', a, reading)
      ensures Models(a, h) <==> Models(a, f) && pq(reading)
    {
      assert Agrees(vars, a, reading);
    }
  }

  lemma EncodesSame(vars: map<Key, int>, f: seq<seq<int>>, g: seq<seq<int>>, p: Reading -> bool, q: Reading -> bool)
    requires Encodes(vars, f, g, p) && forall reading: Reading :: p(reading) <==> q(reading)
    ensures Encodes(vars, f, g, q)
  {
  }

  lemma EncodesNothing(vars: map<Key, int>, f: seq<seq<int>>, p: Reading -> bool)
    requires forall reading: Reading :: p(reading)
    ensures Encodes(vars, f, f, p)
  {
  }

  function Word(reading: Reading, s: Stem, w: nat): (x: seq<bool>)
    ensures |x| == w && forall b :: 0 <= b < w ==> x[b] == reading(Bit(s, b))
  {
    seq(w, b requires 0 <= b < w => reading(Bit(s, b)))
  }

  function CarryWord(reading: Reading, s: Stem, t: Stem, w: nat): (x: seq<bool>)
    ensures |x| == w && forall b :: 0 <= b < w ==> x[b] == reading(Carry(s, t, b))
  {
    seq(w, b requires 0 <= b < w => reading(Carry(s, t, b)))
  }

  predicate SumTo(reading: Reading, s: Stem, t: Stem, o: Stem, w: nat, i: nat)
    requires i < w
  {
    Chain(Word(reading, s, w), Word(reading, t, w), Word(reading, o, w), CarryWord(reading, s, t, w - 1), i)
  }

  lemma SumFirst(r: Reading, s: Stem, t: Stem, o: Stem, w: nat)
    requires w >= 2
    ensures SumTo(r, s, t, o, w, 1) <==>
      (r(Carry(s, t, 0)) == (r(Bit(s, 0)) && r(Bit(t, 0))) && r(Bit(o, 0)) == (r(Bit(s, 0)) != r(Bit(t, 0))))
  {
  }

  lemma SumNext(r: Reading, s: Stem, t: Stem, o: Stem, w: nat, i: nat)
    requires 1 <= i < w - 1
    ensures SumTo(r, s, t, o, w, i + 1) <==>
      SumTo(r, s, t, o, w, i)
      && r(Carry(s, t, i)) == Majority(r(Bit(s, i)), r(Bit(t, i)), r(Carry(s, t, i - 1)))
      && r(Bit(o, i)) == Odd(r(Bit(s, i)), r(Bit(t, i)), r(Carry(s, t, i - 1)))
  {
    hide Majority;
    hide Odd;
  }

  lemma SumLast(r: Reading, s: Stem, t: Stem, o: Stem, w: nat)
    requires w >= 2
    ensures Added(r, s, t, o, w) <==>
      SumTo(r, s, t, o, w, w - 1) && Terminates(r(Bit(s, w - 1)), r(Bit(t, w - 1)), r(Carry(s, t, w - 2)), r(Bit(o, w - 1)))
  {
  }

  predicate Added(reading: Reading, s: Stem, t: Stem, o: Stem, w: nat)
    requires w >= 2
  {
    Adds(Word(reading, s, w), Word(reading, t, w), Word(reading, o, w), CarryWord(reading, s, t, w - 1))
  }

  predicate GatedBy(reading: Reading, s: Stem, gate: Key, o: Stem, n: nat) {
    forall b :: 0 <= b < n ==> reading(Bit(o, b)) == (reading(gate) && reading(Bit(s, b)))
  }

  predicate SameBits(reading: Reading, s: Stem, t: Stem, n: nat) {
    forall b :: 0 <= b < n ==> reading(Bit(s, b)) == reading(Bit(t, b))
  }

  predicate ZeroBits(reading: Reading, s: Stem, n: nat) {
    forall b :: 0 <= b < n ==> !reading(Bit(s, b))
  }

  predicate PositiveBits(reading: Reading, s: Stem, w: nat)
    requires w >= 1
  {
    (exists b :: 0 <= b < w && reading(Bit(s, b))) && !reading(Bit(s, w - 1))
  }

  lemma PairHolds(a: Assignment, x: int, y: int)
    ensures Satisfies(a, [x, y]) <==> Holds(a, x) || Holds(a, y)
  {
    assert [x, y][0] in [x, y] && [x, y][1] in [x, y];
  }

  lemma TripleHolds(a: Assignment, x: int, y: int, z: int)
    ensures Satisfies(a, [x, y, z]) <==> Holds(a, x) || Holds(a, y) || Holds(a, z)
  {
    assert [x, y, z][0] in [x, y, z] && [x, y, z][1] in [x, y, z] && [x, y, z][2] in [x, y, z];
  }

  lemma OddlyAppend(a: Assignment, c: seq<int>, l: int)
    ensures OddlyMany(a, c + [l]) <==> OddlyMany(a, c) != Holds(a, l)
  {
    assert (c + [l])[..|c|] == c;
  }

  lemma TripleOdd(a: Assignment, x: int, y: int, z: int)
    ensures OddlyMany(a, [x, y, z]) <==> Odd(Holds(a, x), Holds(a, y), Holds(a, z))
  {
    OddlyAppend(a, [], x);
    OddlyAppend(a, [x], y);
    OddlyAppend(a, [x, y], z);
    assert [] + [x] == [x] && [x] + [y] == [x, y] && [x, y] + [z] == [x, y, z];
  }

  lemma QuadrupleOdd(a: Assignment, x: int, y: int, z: int, u: int)
    ensures OddlyMany(a, [x, y, z, u]) <==> Odd(Holds(a, x), Holds(a, y), Holds(a, z)) != Holds(a, u)
  {
    OddlyAppend(a, [x, y, z], u);
    assert [x, y, z] + [u] == [x, y, z, u];
    TripleOdd(a, x, y, z);
  }

  /** The top position of an adder: its carry is dropped, and signs that would overflow are excluded. */
  predicate Terminates(x: bool, y: bool, c: bool, z: bool) {
    z == Odd(x, y, c) && (x && y ==> z) && (!x && !y ==> !z)
  }

  /** The clauses of the three adders, over positive variables. */
  lemma HalfMeaning(a: Assignment, v1: int, v2: int, c: int, o: int)
    requires v1 > 0 && v2 > 0 && c > 0 && o > 0
    ensures Satisfies(a, [-v1, -v2, c]) && Satisfies(a, [v1, -c]) && Satisfies(a, [v2, -c]) && OddlyMany(a, [v1, v2, -o]) <==>
      ((c in a) == (v1 in a && v2 in a) && (o in a) == ((v1 in a) != (v2 in a)))
  {
    TripleHolds(a, -v1, -v2, c);
    PairHolds(a, v1, -c);
    PairHolds(a, v2, -c);
    TripleOdd(a, v1, v2, -o);
  }

  lemma FullMeaning(a: Assignment, v1: int, v2: int, v3: int, c: int, o: int)
    requires v1 > 0 && v2 > 0 && v3 > 0 && c > 0 && o > 0
    ensures (
      && Satisfies(a, [v1, v2, -c]) && Satisfies(a, [v1, v3, -c]) && Satisfies(a, [v2, v3, -c])
      && Satisfies(a, [-v1, -v2, c]) && Satisfies(a, [-v1, -v3, c]) && Satisfies(a, [-v2, -v3, c]) && OddlyMany(a, [v1, v2, v3, -o])) <==>
      ((c in a) == Majority(v1 in a, v2 in a, v3 in a) && (o in a) == Odd(v1 in a, v2 in a, v3 in a))
  {
    TripleHolds(a, v1, v2, -c);
    TripleHolds(a, v1, v3, -c);
    TripleHolds(a, v2, v3, -c);
    TripleHolds(a, -v1, -v2, c);
    TripleHolds(a, -v1, -v3, c);
    TripleHolds(a, -v2, -v3, c);
    QuadrupleOdd(a, v1, v2, v3, -o);
  }

  lemma TerminatingMeaning(a: Assignment, v1: int, v2: int, v3: int, o: int)
    requires v1 > 0 && v2 > 0 && v3 > 0 && o > 0
    ensures OddlyMany(a, [v1, v2, v3, -o]) && Satisfies(a, [-v1, -v2, o]) && Satisfies(a, [v1, v2, -o]) <==>
      ((o in a) == Odd(v1 in a, v2 in a, v3 in a) && (v1 in a && v2 in a ==> o in a) && (v1 !in a && v2 !in a ==> o !in a))
  {
    QuadrupleOdd(a, v1, v2, v3, -o);
    TripleHolds(a, -v1, -v2, o);
    TripleHolds(a, v1, v2, -o);
  }

  lemma OneHolds(a: Assignment, x: int)
    ensures Satisfies(a, [x]) <==> Holds(a, x)
  {
    assert [x][0] in [x];
  }

  lemma SomeHolds(a: Assignment, c: seq<int>)
    requires forall b :: 0 <= b < |c| ==> c[b] >= 1
    ensures Satisfies(a, c) <==> exists b :: 0 <= b < |c| && c[b] in a
  {
    if b :| 0 <= b < |c| && c[b] in a {
      assert c[b] in c && Holds(a, c[b]);
    }
  }

  // ---------------------------------------------------- the identity constraint

  /** The terms of the product's element: the inverse's elements gated by the matrix. */
  predicate Terms(r: Reading, w: nat, row: nat, col: nat, n: nat) {
    forall k :: 0 <= k < n ==> GatedBy(r, Inverse(k, col), Entry(row, k), Gated(k, row, col), w)
  }

  /** The partial sums. */
  predicate Sums(r: Reading, w: nat, row: nat, col: nat, n: nat)
    requires w >= 2
  {
    && SameBits(r, Gated(0, row, col), Sum(0, row, col), w)
    && forall k :: 1 <= k < n ==> Added(r, Sum(k - 1, row, col), Gated(k, row, col), Sum(k, row, col), w)
  }

  /** Zero off the diagonal, positive in its first place, the same along it. */
  predicate Verdict(r: Reading, n: nat, w: nat, row: nat, col: nat)
    requires w >= 1 && n >= 1
  {
    if row != col then ZeroBits(r, Sum(n - 1, row, col), w)
    else if col == 0 then PositiveBits(r, Sum(n - 1, row, col), w)
    else SameBits(r, Sum(n - 1, row, col), Sum(n - 1, row - 1, col - 1), w)
  }

  predicate Element(r: Reading, n: nat, w: nat, row: nat, col: nat)
    requires w >= 2 && n >= 1
  {
    Terms(r, w, row, col, n) && Sums(r, w, row, col, n) && Verdict(r, n, w, row, col)
  }

  predicate Column(r: Reading, n: nat, w: nat, col: nat, rows: nat)
    requires w >= 2 && (rows > 0 ==> n >= 1)
  {
    forall row :: 0 <= row < rows ==> Element(r, n, w, row, col)
  }

  predicate Elements(r: Reading, n: nat, w: nat, cols: nat)
    requires w >= 2
  {
    forall col :: 0 <= col < cols ==> Column(r, n, w, col, n)
  }

  type Matrix = (nat, nat) -> int

  /** The matrices a reading stands for. */
  function MatrixOf(r: Reading): Matrix {
    (row: nat, k: nat) => if r(Entry(row, k)) then 1 else 0
  }

  function InverseOf(r: Reading, w: nat): Matrix
    requires w >= 1
  {
    (k: nat, col: nat) => Signed(Word(r, Inverse(k, col), w))
  }

  /** The product's element, up to term n. */
  function Dot(m: Matrix, x: Matrix, row: nat, col: nat, n: nat): int {
    if n == 0 then 0 else Dot(m, x, row, col, n - 1) + m(row, n - 1) * x(n - 1, col)
  }

  lemma GatedValue(r: Reading, w: nat, k: nat, row: nat, col: nat)
    requires w >= 2 && GatedBy(r, Inverse(k, col), Entry(row, k), Gated(k, row, col), w)
    ensures Signed(Word(r, Gated(k, row, col), w)) == MatrixOf(r)(row, k) * InverseOf(r, w)(k, col)
  {
    var g := Word(r, Gated(k, row, col), w);
    if r(Entry(row, k)) {
      assert g == Word(r, Inverse(k, col), w);
    } else {
      SignedZero(g);
    }
  }

  /** The partial sums are the partial sums of the product. */
  lemma {:induction false} SumValue(r: Reading, w: nat, row: nat, col: nat, n: nat, k: nat)
    requires w >= 2 && k < n && Terms(r, w, row, col, n) && Sums(r, w, row, col, n)
    ensures Signed(Word(r, Sum(k, row, col), w)) == Dot(MatrixOf(r), InverseOf(r, w), row, col, k + 1)
  {
    GatedValue(r, w, k, row, col);
    if k == 0 {
      assert Word(r, Sum(0, row, col), w) == Word(r, Gated(0, row, col), w);
    } else {
      SumValue(r, w, row, col, n, k - 1);
      assert Added(r, Sum(k - 1, row, col), Gated(k, row, col), Sum(k, row, col), w);
      AdderSound(Word(r, Sum(k - 1, row, col), w), Word(r, Gated(k, row, col), w), Word(r, Sum(k, row, col), w),
        CarryWord(r, Sum(k - 1, row, col), Gated(k, row, col), w - 1));
    }
  }

  /** What the verdict on an element says of its value. */
  lemma ElementValue(r: Reading, n: nat, w: nat, row: nat, col: nat)
    requires w >= 2 && row < n && col < n && Element(r, n, w, row, col)
    ensures var v := Dot(MatrixOf(r), InverseOf(r, w), row, col, n);
      && v == Signed(Word(r, Sum(n - 1, row, col), w))
      && (row != col ==> v == 0) && (row == col == 0 ==> v > 0)
      && (row == col > 0 ==> v == Signed(Word(r, Sum(n - 1, row - 1, col - 1), w)))
  {
    hide Terms;
    hide Sums;
    hide Signed;
    SumValue(r, w, row, col, n, n - 1);
    var s := Word(r, Sum(n - 1, row, col), w);
    if row != col {
      SignedZero(s);
    } else if row == 0 {
      SignedPositive(s);
    } else {
      assert s == Word(r, Sum(n - 1, row - 1, col - 1), w);
    }
  }

  /** Soundness: a reading of the clauses is a binary matrix and an integer matrix whose product is a positive multiple of
      the identity. */
  lemma {:induction false} IdentitySound(r: Reading, n: nat, w: nat, row: nat, col: nat)
    requires w >= 2 && row < n && col < n && Elements(r, n, w, n)
    ensures var c := Dot(MatrixOf(r), InverseOf(r, w), 0, 0, n);
      c > 0 && Dot(MatrixOf(r), InverseOf(r, w), row, col, n) == if row == col then c else 0
    decreases row
  {
    hide Element;
    hide Dot;
    assert Column(r, n, w, col, n) && Element(r, n, w, row, col);
    assert Column(r, n, w, 0, n) && Element(r, n, w, 0, 0);
    ElementValue(r, n, w, row, col);
    ElementValue(r, n, w, 0, 0);
    if row == col > 0 {
      IdentitySound(r, n, w, row - 1, col - 1);
      assert Column(r, n, w, col - 1, n) && Element(r, n, w, row - 1, col - 1);
      ElementValue(r, n, w, row - 1, col - 1);
    }
  }

  // -------------------------------------------------------------- completeness

  /** The products and their partial sums fit the width. */
  ghost predicate SumsFit(m: Matrix, x: Matrix, n: nat, w: nat)
    requires w >= 1
  {
    && (forall k: nat, col: nat :: k < n && col < n ==> Fits(x(k, col), w))
    && forall row: nat, col: nat, k: nat :: row < n && col < n && k <= n ==> Fits(Dot(m, x, row, col, k), w)
  }

  /** m is binary and m times x is a positive multiple of the identity. */
  ghost predicate Inverts(m: Matrix, x: Matrix, n: nat) {
    && (forall row: nat, k: nat :: row < n && k < n ==> m(row, k) == 0 || m(row, k) == 1)
    && forall row: nat, col: nat :: row < n && col < n ==>
         Dot(m, x, 0, 0, n) > 0 && Dot(m, x, row, col, n) == if row == col then Dot(m, x, 0, 0, n) else 0
  }

  function WordOrZero(v: int, w: nat): (x: seq<bool>)
    requires w >= 1
    ensures |x| == w && (Fits(v, w) ==> Signed(x) == v)
  {
    if Fits(v, w) then ToWord(v, w) else seq(w, b => false)
  }

  /** The integer a stem stands for. */
  function StemValue(m: Matrix, x: Matrix, s: Stem): int {
    match s
    case Inverse(k, c) => x(k, c)
    case Gated(k, r, c) => m(r, k) * x(k, c)
    case Sum(k, r, c) => Dot(m, x, r, c, k + 1)
  }

  /** The reading of the clauses that matrices m and x give. */
  function ReadingOf(m: Matrix, x: Matrix, w: nat): Reading
    requires w >= 2
  {
    (key: Key) =>
      match key
      case Entry(row, k) => m(row, k) == 1
      case Bit(s, b) => b < w && WordOrZero(StemValue(m, x, s), w)[b]
      case Carry(s, t, b) => b < w - 1 && Carries(WordOrZero(StemValue(m, x, s), w), WordOrZero(StemValue(m, x, t), w), w - 1)[b]
  }

  lemma WordOfReading(m: Matrix, x: Matrix, w: nat, s: Stem)
    requires w >= 2
    ensures Word(ReadingOf(m, x, w), s, w) == WordOrZero(StemValue(m, x, s), w)
  {
  }

  lemma CarriesOfReading(m: Matrix, x: Matrix, w: nat, s: Stem, t: Stem)
    requires w >= 2
    ensures CarryWord(ReadingOf(m, x, w), s, t, w - 1) == Carries(WordOrZero(StemValue(m, x, s), w), WordOrZero(StemValue(m, x, t), w), w - 1)
  {
  }

  /** A term of a product with a binary matrix fits if the inverse's element does. */
  lemma TermFits(m: Matrix, x: Matrix, n: nat, w: nat, k: nat, row: nat, col: nat)
    requires w >= 2 && k < n && row < n && col < n && SumsFit(m, x, n, w) && Inverts(m, x, n)
    ensures Fits(StemValue(m, x, Gated(k, row, col)), w)
    ensures StemValue(m, x, Gated(k, row, col)) == if m(row, k) == 1 then x(k, col) else 0
  {
    assert Fits(x(k, col), w);
  }

  lemma GatesComplete(m: Matrix, x: Matrix, n: nat, w: nat, row: nat, col: nat)
    requires w >= 2 && row < n && col < n && SumsFit(m, x, n, w) && Inverts(m, x, n)
    ensures Terms(ReadingOf(m, x, w), w, row, col, n)
  {
    var r := ReadingOf(m, x, w);
    forall k | 0 <= k < n ensures GatedBy(r, Inverse(k, col), Entry(row, k), Gated(k, row, col), w) {
      TermFits(m, x, n, w, k, row, col);
      WordOfReading(m, x, w, Gated(k, row, col));
      WordOfReading(m, x, w, Inverse(k, col));
      var g := Word(r, Gated(k, row, col), w);
      if m(row, k) != 1 {
        SignedZero(g);
      }
      forall b | 0 <= b < w ensures r(Bit(Gated(k, row, col), b)) == (r(Entry(row, k)) && r(Bit(Inverse(k, col), b))) {
        assert g[b] == r(Bit(Gated(k, row, col), b));
      }
    }
  }

  lemma SumsComplete(m: Matrix, x: Matrix, n: nat, w: nat, row: nat, col: nat)
    requires w >= 2 && row < n && col < n && SumsFit(m, x, n, w) && Inverts(m, x, n)
    ensures Sums(ReadingOf(m, x, w), w, row, col, n)
  {
    var r := ReadingOf(m, x, w);
    assert Dot(m, x, row, col, 1) == Dot(m, x, row, col, 0) + m(row, 0) * x(0, col);
    WordOfReading(m, x, w, Gated(0, row, col));
    WordOfReading(m, x, w, Sum(0, row, col));
    assert SameBits(r, Gated(0, row, col), Sum(0, row, col), w) by {
      assert Word(r, Gated(0, row, col), w) == Word(r, Sum(0, row, col), w);
      SameWords(r, Gated(0, row, col), Sum(0, row, col), w);
    }
    forall k | 1 <= k < n ensures Added(r, Sum(k - 1, row, col), Gated(k, row, col), Sum(k, row, col), w) {
      SumComplete(m, x, n, w, row, col, k);
    }
  }

  lemma SameWords(r: Reading, s: Stem, t: Stem, w: nat)
    requires Word(r, s, w) == Word(r, t, w)
    ensures SameBits(r, s, t, w)
  {
    forall b | 0 <= b < w ensures r(Bit(s, b)) == r(Bit(t, b)) {
      assert Word(r, s, w)[b] == Word(r, t, w)[b];
    }
  }

  lemma SumComplete(m: Matrix, x: Matrix, n: nat, w: nat, row: nat, col: nat, k: nat)
    requires w >= 2 && row < n && col < n && SumsFit(m, x, n, w) && Inverts(m, x, n) && 1 <= k < n
    ensures Added(ReadingOf(m, x, w), Sum(k - 1, row, col), Gated(k, row, col), Sum(k, row, col), w)
  {
    hide ReadingOf;
    hide Adds;
    hide Carries;
    hide WordOrZero;
    var s, t, o := Sum(k - 1, row, col), Gated(k, row, col), Sum(k, row, col);
    TermFits(m, x, n, w, k, row, col);
    assert Fits(Dot(m, x, row, col, k), w) && Fits(Dot(m, x, row, col, k + 1), w);
    assert StemValue(m, x, o) == StemValue(m, x, s) + StemValue(m, x, t);
    hide Dot;
    hide Signed;
    WordOfReading(m, x, w, s);
    WordOfReading(m, x, w, t);
    WordOfReading(m, x, w, o);
    CarriesOfReading(m, x, w, s, t);
    AddedWords(WordOrZero(StemValue(m, x, s), w), WordOrZero(StemValue(m, x, t), w), WordOrZero(StemValue(m, x, o), w));
  }

  /** The word of a sum that fits is the one the adder accepts. */
  lemma AddedWords(a: seq<bool>, b: seq<bool>, o: seq<bool>)
    requires |a| == |b| == |o| >= 2 && Signed(o) == Signed(a) + Signed(b)
    ensures Adds(a, b, o, Carries(a, b, |a| - 1))
  {
    hide Adds;
    hide Carries;
    SignedRange(o);
    hide Signed;
    AdderComplete(a, b);
    var c := Carries(a, b, |a| - 1);
    AdderSound(a, b, SumBits(a, b, c), c);
    SignedInjective(SumBits(a, b, c), o);
  }

  lemma VerdictComplete(m: Matrix, x: Matrix, n: nat, w: nat, row: nat, col: nat)
    requires w >= 2 && row < n && col < n && SumsFit(m, x, n, w) && Inverts(m, x, n)
    ensures Verdict(ReadingOf(m, x, w), n, w, row, col)
  {
    var r := ReadingOf(m, x, w);
    var s := Sum(n - 1, row, col);
    assert Fits(Dot(m, x, row, col, n), w);
    WordOfReading(m, x, w, s);
    hide ReadingOf;
    hide Dot;
    var a := Word(r, s, w);
    assert Signed(a) == Dot(m, x, row, col, n);
    if row != col {
      SignedZero(a);
      forall b | 0 <= b < w ensures !r(Bit(s, b)) {
        assert !a[b];
      }
    } else if col == 0 {
      SignedPositive(a);
      var b :| 0 <= b < w && a[b];
      assert r(Bit(s, b));
    } else {
      assert Fits(Dot(m, x, row - 1, col - 1, n), w);
      WordOfReading(m, x, w, Sum(n - 1, row - 1, col - 1));
      SignedInjective(a, Word(r, Sum(n - 1, row - 1, col - 1), w));
      SameWords(r, s, Sum(n - 1, row - 1, col - 1), w);
    }
  }

  /** Completeness: matrices whose product is a positive multiple of the identity, with sums that fit, satisfy the clauses. */
  lemma IdentityComplete(m: Matrix, x: Matrix, n: nat, w: nat)
    requires w >= 2 && SumsFit(m, x, n, w) && Inverts(m, x, n)
    ensures var r := ReadingOf(m, x, w);
      && Elements(r, n, w, n)
      && (forall row: nat, k: nat :: row < n && k < n ==> MatrixOf(r)(row, k) == m(row, k))
      && (forall k: nat, col: nat :: k < n && col < n ==> InverseOf(r, w)(k, col) == x(k, col))
  {
    var r := ReadingOf(m, x, w);
    forall col | 0 <= col < n ensures Column(r, n, w, col, n) {
      forall row | 0 <= row < n ensures Element(r, n, w, row, col) {
        GatesComplete(m, x, n, w, row, col);
        SumsComplete(m, x, n, w, row, col);
        VerdictComplete(m, x, n, w, row, col);
      }
    }
    forall k: nat, col: nat | k < n && col < n ensures InverseOf(r, w)(k, col) == x(k, col) {
      assert Fits(x(k, col), w);
      WordOfReading(m, x, w, Inverse(k, col));
    }
    hide Elements;
  }

  /** An assignment for a reading, through the numbering of the keys. */
  ghost function AssignmentOf(vars: map<Key, int>, r: Reading): Assignment {
    iset v: int | Chosen(vars, r, v)
  }

  ghost predicate Chosen(vars: map<Key, int>, r: Reading, v: int) {
    exists k :: k in vars && vars[k] == v && r(k)
  }

  /** The clauses written on an empty problem mean exactly that: every model reads as such matrices, and such matrices whose
      sums fit have a model. */
  lemma ModelsAreInverses(vars: map<Key, int>, cnf: seq<seq<int>>, n: nat, w: nat, a: Assignment, r: Reading)
    requires w >= 2 && Encodes(vars, [], cnf, (reading: Reading) => Elements(reading, n, w, n)) && Models(a, cnf) && Agrees(vars, a, r)
    ensures n > 0 ==> Inverts(MatrixOf(r), InverseOf(r, w), n)
  {
    assert Elements(r, n, w, n);
    if n > 0 {
      forall row: nat, col: nat | row < n && col < n
        ensures var c := Dot(MatrixOf(r), InverseOf(r, w), 0, 0, n);
          c > 0 && Dot(MatrixOf(r), InverseOf(r, w), row, col, n) == if row == col then c else 0
      {
        IdentitySound(r, n, w, row, col);
      }
    }
  }

  lemma InversesAreModels(vars: map<Key, int>, cnf: seq<seq<int>>, n: nat, w: nat, m: Matrix, x: Matrix)
    requires w >= 2 && Encodes(vars, [], cnf, (reading: Reading) => Elements(reading, n, w, n)) && SumsFit(m, x, n, w) && Inverts(m, x, n)
    requires forall k, l :: k in vars && l in vars && vars[k] == vars[l] ==> k == l
    ensures Models(AssignmentOf(vars, ReadingOf(m, x, w)), cnf) && Agrees(vars, AssignmentOf(vars, ReadingOf(m, x, w)), ReadingOf(m, x, w))
  {
    var r := ReadingOf(m, x, w);
    var a := AssignmentOf(vars, r);
    IdentityComplete(m, x, n, w);
    assert Agrees(vars, a, r);
    assert Models(a, []);
  }

  /** Only a new key gets a number, the next one. */
  ghost predicate Numbered(vars: map<Key, int>, index: int, k: Key, vars': map<Key, int>, index': int) {
    if k in vars then vars' == vars && index' == index else index' == index + 1 && vars' == vars[k := index']
  }

  class Problem {
    const w: nat
    var vars: map<Key, int>
    var index: int
    var cnf: seq<seq<int>>

    ghost predicate Valid()
      reads this
    {
      && w >= 2 && index >= 0 && (forall k :: k in vars ==> 1 <= vars[k] <= index)
      && forall k, l :: k in vars && l in vars && vars[k] == vars[l] ==> k == l
    }

    constructor (w: nat)
      requires w >= 2
      ensures Valid() && this.w == w && cnf == [] && vars == map[]
    {
      this.w := w;
      vars, index, cnf := map[], 0, [];
    }

    /** CNF_variables: a key gets the next number when it is first looked up. */
    method Lookup(k: Key) returns (v: int)
      requires Valid()
      modifies `vars, `index
      ensures Valid() && Extends(old(vars), vars) && k in vars && vars[k] == v >= 1
    {
      Number(k);
      v := vars[k];
    }

    method Number(k: Key)
      requires Valid()
      modifies `vars, `index
      ensures Valid() && Extends(old(vars), vars) && k in vars && vars[k] >= 1
      ensures Numbered(old(vars), old(index), k, vars, index)
    {
      if k !in vars {
        index := index + 1;
        vars := vars[k := index];
      }
    }

    method LookupTwo(k: Key, l: Key) returns (v: int, u: int)
      requires Valid()
      modifies `vars, `index
      ensures Valid() && Extends(old(vars), vars) && k in vars && vars[k] == v >= 1 && l in vars && vars[l] == u >= 1
    {
      v := Lookup(k);
      u := Lookup(l);
    }

    method LookupThree(k: Key, l: Key, m: Key) returns (v: int, u: int, t: int)
      requires Valid()
      modifies `vars, `index
      ensures Valid() && Extends(old(vars), vars) && k in vars && vars[k] == v >= 1 && l in vars && vars[l] == u >= 1 && m in vars && vars[m] == t >= 1
    {
      v, u := LookupTwo(k, l);
      t := Lookup(m);
    }

    method AddClause(c: seq<int>)
      modifies `cnf
      ensures cnf == old(cnf) + [c]
      ensures forall a: Assignment :: Models(a, cnf) <==> Models(a, old(cnf)) && Satisfies(a, c)
    {
      cnf := cnf + [c];
      forall a: Assignment ensures Models(a, cnf) <==> Models(a, old(cnf)) && Satisfies(a, c) {
        ModelsMore(a, old(cnf), c);
      }
    }

    /** add_a_x_clause: all sign patterns of the clause with an even number of negations. */
    method AddAXClause(clause: seq<int>)
      requires clause != [] && forall j :: 0 <= j < |clause| ==> clause[j] != 0
      modifies `cnf
      ensures forall a: Assignment :: Models(a, cnf) <==> Models(a, old(cnf)) && OddlyMany(a, clause)
    {
      var n := |clause| - 1;
      var last := Pow2(n);
      var i: nat := 0;
      while i < last
        invariant i <= last
        invariant forall a: Assignment :: Models(a, cnf) <==> Models(a, old(cnf)) && AllXor(a, clause, i)
      {
        var c: seq<int> := [];
        var mod := 1;
        for j := 0 to n
          invariant c == XorFront(clause, i, j) && mod == if XorSign(i, j) then 1 else -1
        {
          var polarity := if (i / Pow2(j)) % 2 == 1 then 1 else -1;
          mod := mod * polarity;
          c := c + [polarity * clause[j]];
        }
        ghost var cnf0 := cnf;
        cnf := cnf + [c + [mod * clause[n]]];
        assert c + [mod * clause[n]] == XorClause(clause, i);
        forall a: Assignment ensures Models(a, cnf) <==> Models(a, old(cnf)) && AllXor(a, clause, i + 1) {
          ModelsMore(a, cnf0, XorClause(clause, i));
          AllXorMore(a, clause, i);
        }
        i := i + 1;
      }
      forall a: Assignment ensures Models(a, cnf) <==> Models(a, old(cnf)) && OddlyMany(a, clause) {
        XorMeaning(a, clause);
      }
    }

    method HalfClauses(v1: int, v2: int, c: int, o: int)
      requires v1 > 0 && v2 > 0 && c > 0 && o > 0
      modifies `cnf
      ensures forall a: Assignment :: Models(a, cnf) <==>
        Models(a, old(cnf)) && (c in a) == (v1 in a && v2 in a) && (o in a) == ((v1 in a) != (v2 in a))
    {
      hide Models;
      hide Satisfies;
      hide OddlyMany;
      AddClause([-v1, -v2, c]);
      AddClause([v1, -c]);
      AddClause([v2, -c]);
      AddAXClause([v1, v2, -o]);
      forall a: Assignment
        ensures Models(a, cnf) <==> Models(a, old(cnf)) && (c in a) == (v1 in a && v2 in a) && (o in a) == ((v1 in a) != (v2 in a))
      {
        HalfMeaning(a, v1, v2, c, o);
      }
    }

    /** carry is k1 and k2, output is k1 xor k2. */
    method HalfAdder(k1: Key, k2: Key, output: Key, carry: Key)
      requires Valid()
      modifies `vars, `index, `cnf
      ensures Valid() && Extends(old(vars), vars)
      ensures Encodes(vars, old(cnf), cnf, (r: Reading) => r(carry) == (r(k1) && r(k2)) && r(output) == (r(k1) != r(k2)))
    {
      hide Models;
      var v1, v2 := LookupTwo(k1, k2);
      var vc, vo := LookupTwo(carry, output);
      HalfClauses(v1, v2, vc, vo);
    }

    method FullClauses(v1: int, v2: int, v3: int, c: int, o: int)
      requires v1 > 0 && v2 > 0 && v3 > 0 && c > 0 && o > 0
      modifies `cnf
      ensures forall a: Assignment :: Models(a, cnf) <==>
        Models(a, old(cnf)) && (c in a) == Majority(v1 in a, v2 in a, v3 in a) && (o in a) == Odd(v1 in a, v2 in a, v3 in a)
    {
      hide Models;
      hide Satisfies;
      hide OddlyMany;
      hide Odd;
      hide Majority;
      AddClause([v1, v2, -c]);
      AddClause([v1, v3, -c]);
      AddClause([v2, v3, -c]);
      AddClause([-v1, -v2, c]);
      AddClause([-v1, -v3, c]);
      AddClause([-v2, -v3, c]);
      AddAXClause([v1, v2, v3, -o]);
      forall a: Assignment
        ensures Models(a, cnf) <==>
          Models(a, old(cnf)) && (c in a) == Majority(v1 in a, v2 in a, v3 in a) && (o in a) == Odd(v1 in a, v2 in a, v3 in a)
      {
        FullMeaning(a, v1, v2, v3, c, o);
      }
    }

    /** carry is true when two or three of k1, k2 and k3 are, output when one or three are. */
    method FullAdder(k1: Key, k2: Key, k3: Key, output: Key, carry: Key)
      requires Valid()
      modifies `vars, `index, `cnf
      ensures Valid() && Extends(old(vars), vars)
      ensures Encodes(vars, old(cnf), cnf, (r: Reading) => r(carry) == Majority(r(k1), r(k2), r(k3)) && r(output) == Odd(r(k1), r(k2), r(k3)))
    {
      hide Models;
      hide Odd;
      hide Majority;
      var v1, v2, v3 := LookupThree(k1, k2, k3);
      var vc, vo := LookupTwo(carry, output);
      FullClauses(v1, v2, v3, vc, vo);
    }

    method TerminatingClauses(v1: int, v2: int, v3: int, o: int)
      requires v1 > 0 && v2 > 0 && v3 > 0 && o > 0
      modifies `cnf
      ensures forall a: Assignment :: Models(a, cnf) <==> Models(a, old(cnf)) && Terminates(v1 in a, v2 in a, v3 in a, o in a)
    {
      hide Models;
      hide Satisfies;
      hide OddlyMany;
      AddAXClause([v1, v2, v3, -o]);
      AddClause([-v1, -v2, o]);
      AddClause([v1, v2, -o]);
      forall a: Assignment ensures Models(a, cnf) <==> Models(a, old(cnf)) && Terminates(v1 in a, v2 in a, v3 in a, o in a) {
        TerminatingMeaning(a, v1, v2, v3, o);
      }
    }

    method TerminatingAdder(k1: Key, k2: Key, k3: Key, output: Key)
      requires Valid()
      modifies `vars, `index, `cnf
      ensures Valid() && Extends(old(vars), vars)
      ensures Encodes(vars, old(cnf), cnf, (r: Reading) => Terminates(r(k1), r(k2), r(k3), r(output)))
    {
      hide Models;
      hide Terminates;
      var v1, v2, v3 := LookupThree(k1, k2, k3);
      var vo := Lookup(output);
      TerminatingClauses(v1, v2, v3, vo);
    }

    /** Add: a half adder, full adders and a terminating adder in a row. */
    method Add(v1: Stem, v2: Stem, o: Stem)
      requires Valid()
      modifies `vars, `index, `cnf
      ensures Valid() && Extends(old(vars), vars)
      ensures Encodes(vars, old(cnf), cnf, (r: Reading) => Added(r, v1, v2, o, w))
    {
      hide Encodes;
      hide SumTo;
      hide Added;
      hide Terminates;
      hide Majority;
      hide Odd;
      ghost var vars0, cnf0 := vars, cnf;
      HalfAdder(Bit(v1, 0), Bit(v2, 0), Bit(o, 0), Carry(v1, v2, 0));
      forall r: Reading ensures SumTo(r, v1, v2, o, w, 1) <==>
        (r(Carry(v1, v2, 0)) == (r(Bit(v1, 0)) && r(Bit(v2, 0))) && r(Bit(o, 0)) == (r(Bit(v1, 0)) != r(Bit(v2, 0))))
      {
        SumFirst(r, v1, v2, o, w);
      }
      EncodesSame(vars, cnf0, cnf,
        (r: Reading) => r(Carry(v1, v2, 0)) == (r(Bit(v1, 0)) && r(Bit(v2, 0))) && r(Bit(o, 0)) == (r(Bit(v1, 0)) != r(Bit(v2, 0))),
        (r: Reading) => SumTo(r, v1, v2, o, w, 1));
      var i := 1;
      while i < w - 1
        invariant 1 <= i <= w - 1 && Valid() && Extends(vars0, vars)
        invariant Encodes(vars, cnf0, cnf, (r: Reading) => SumTo(r, v1, v2, o, w, i))
      {
        ghost var vars1, cnf1 := vars, cnf;
        FullAdder(Bit(v1, i), Bit(v2, i), Carry(v1, v2, i - 1), Bit(o, i), Carry(v1, v2, i));
        forall r: Reading ensures SumTo(r, v1, v2, o, w, i + 1) <==>
          SumTo(r, v1, v2, o, w, i)
          && r(Carry(v1, v2, i)) == Majority(r(Bit(v1, i)), r(Bit(v2, i)), r(Carry(v1, v2, i - 1)))
          && r(Bit(o, i)) == Odd(r(Bit(v1, i)), r(Bit(v2, i)), r(Carry(v1, v2, i - 1)))
        {
          SumNext(r, v1, v2, o, w, i);
        }
        EncodesMore(vars1, vars, cnf0, cnf1, cnf, (r: Reading) => SumTo(r, v1, v2, o, w, i),
          (r: Reading) => r(Carry(v1, v2, i)) == Majority(r(Bit(v1, i)), r(Bit(v2, i)), r(Carry(v1, v2, i - 1)))
            && r(Bit(o, i)) == Odd(r(Bit(v1, i)), r(Bit(v2, i)), r(Carry(v1, v2, i - 1))),
          (r: Reading) => SumTo(r, v1, v2, o, w, i + 1));
        i := i + 1;
      }
      ghost var vars1, cnf1 := vars, cnf;
      TerminatingAdder(Bit(v1, i), Bit(v2, i), Carry(v1, v2, i - 1), Bit(o, i));
      forall r: Reading ensures Added(r, v1, v2, o, w) <==>
        SumTo(r, v1, v2, o, w, i) && Terminates(r(Bit(v1, i)), r(Bit(v2, i)), r(Carry(v1, v2, i - 1)), r(Bit(o, i)))
      {
        SumLast(r, v1, v2, o, w);
      }
      EncodesMore(vars1, vars, cnf0, cnf1, cnf, (r: Reading) => SumTo(r, v1, v2, o, w, i),
        (r: Reading) => Terminates(r(Bit(v1, i)), r(Bit(v2, i)), r(Carry(v1, v2, i - 1)), r(Bit(o, i))),
        (r: Reading) => Added(r, v1, v2, o, w));
    }

    /** The variables of the bits of an integer. */
    method LookupBits(s: Stem) returns (bits: seq<int>)
      requires Valid()
      modifies `vars, `index
      ensures Valid() && Extends(old(vars), vars) && |bits| == w
      ensures forall b :: 0 <= b < w ==> Bit(s, b) in vars && vars[Bit(s, b)] == bits[b] >= 1
    {
      bits := [];
      for b := 0 to w
        invariant Valid() && Extends(old(vars), vars) && |bits| == b
        invariant forall c :: 0 <= c < b ==> Bit(s, c) in vars && vars[Bit(s, c)] == bits[c] >= 1
      {
        var v := Lookup(Bit(s, b));
        bits := bits + [v];
      }
    }

    method LookupWords(s: Stem, t: Stem) returns (bits1: seq<int>, bits2: seq<int>)
      requires Valid()
      modifies `vars, `index
      ensures Valid() && Extends(old(vars), vars) && |bits1| == |bits2| == w
      ensures forall b :: 0 <= b < w ==> Bit(s, b) in vars && vars[Bit(s, b)] == bits1[b] >= 1
      ensures forall b :: 0 <= b < w ==> Bit(t, b) in vars && vars[Bit(t, b)] == bits2[b] >= 1
    {
      bits1 := LookupBits(s);
      bits2 := LookupBits(t);
    }

    /** Gated: the output is the integer if the gate is true and zero otherwise. */
    method GateInteger(v1: Stem, gate: Key, o: Stem)
      requires Valid()
      modifies `vars, `index, `cnf
      ensures Valid() && Extends(old(vars), vars)
      ensures Encodes(vars, old(cnf), cnf, (r: Reading) => GatedBy(r, v1, gate, o, w))
    {
      hide Models;
      var bits1, bits := LookupWords(v1, o);
      var g := Lookup(gate);
      hide Valid;
      hide Extends;
      GateBits(g, bits1, bits);
    }

    method GateBits(g: int, bits1: seq<int>, bits: seq<int>)
      requires g >= 1 && |bits1| == |bits| && forall b :: 0 <= b < |bits| ==> bits1[b] >= 1 && bits[b] >= 1
      modifies `cnf
      ensures forall a: Assignment :: Models(a, cnf) <==>
        Models(a, old(cnf)) && forall b :: 0 <= b < |bits| ==> (bits[b] in a) == (g in a && bits1[b] in a)
    {
      hide Models;
      for i := 0 to |bits|
        invariant forall a: Assignment :: Models(a, cnf) <==>
          Models(a, old(cnf)) && forall b :: 0 <= b < i ==> (bits[b] in a) == (g in a && bits1[b] in a)
      {
        GateBit(g, bits1[i], bits[i]);
      }
    }

    method GateBit(g: int, x: int, y: int)
      requires g >= 1 && x >= 1 && y >= 1
      modifies `cnf
      ensures forall a: Assignment :: Models(a, cnf) <==> Models(a, old(cnf)) && (y in a) == (g in a && x in a)
    {
      hide Models;
      hide Satisfies;
      AddClause([-g, -x, y]);
      AddClause([-g, x, -y]);
      AddClause([g, -y]);
      forall a: Assignment ensures Models(a, cnf) <==> Models(a, old(cnf)) && (y in a) == (g in a && x in a) {
        TripleHolds(a, -g, -x, y);
        TripleHolds(a, -g, x, -y);
        PairHolds(a, g, -y);
      }
    }

    method AssertIsZero(v1: Stem)
      requires Valid()
      modifies `vars, `index, `cnf
      ensures Valid() && Extends(old(vars), vars)
      ensures Encodes(vars, old(cnf), cnf, (r: Reading) => ZeroBits(r, v1, w))
    {
      hide Models;
      var bits := LookupBits(v1);
      NegateBits(bits);
    }

    method NegateBits(bits: seq<int>)
      requires forall b :: 0 <= b < |bits| ==> bits[b] >= 1
      modifies `cnf
      ensures forall a: Assignment :: Models(a, cnf) <==> Models(a, old(cnf)) && forall b :: 0 <= b < |bits| ==> bits[b] !in a
    {
      hide Models;
      hide Satisfies;
      for i := 0 to |bits|
        invariant forall a: Assignment :: Models(a, cnf) <==> Models(a, old(cnf)) && forall b :: 0 <= b < i ==> bits[b] !in a
      {
        AddClause([-bits[i]]);
        forall a: Assignment ensures Satisfies(a, [-bits[i]]) <==> bits[i] !in a {
          OneHolds(a, -bits[i]);
        }
      }
    }

    method AssertIsEqual(v1: Stem, v2: Stem)
      requires Valid()
      modifies `vars, `index, `cnf
      ensures Valid() && Extends(old(vars), vars)
      ensures Encodes(vars, old(cnf), cnf, (r: Reading) => SameBits(r, v1, v2, w))
    {
      hide Models;
      var bits1, bits2 := LookupWords(v1, v2);
      hide Valid;
      hide Extends;
      EqualWords(bits1, bits2);
    }

    method EqualWords(bits1: seq<int>, bits2: seq<int>)
      requires |bits1| == |bits2| && forall b :: 0 <= b < |bits1| ==> bits1[b] >= 1 && bits2[b] >= 1
      modifies `cnf
      ensures forall a: Assignment :: Models(a, cnf) <==>
        Models(a, old(cnf)) && forall b :: 0 <= b < |bits1| ==> (bits1[b] in a) == (bits2[b] in a)
    {
      hide Models;
      for i := 0 to |bits1|
        invariant forall a: Assignment :: Models(a, cnf) <==>
          Models(a, old(cnf)) && forall b :: 0 <= b < i ==> (bits1[b] in a) == (bits2[b] in a)
      {
        EqualBits(bits1[i], bits2[i]);
      }
    }

    method EqualBits(x: int, y: int)
      requires x >= 1 && y >= 1
      modifies `cnf
      ensures forall a: Assignment :: Models(a, cnf) <==> Models(a, old(cnf)) && (x in a) == (y in a)
    {
      hide Models;
      hide Satisfies;
      AddClause([-x, y]);
      AddClause([x, -y]);
      forall a: Assignment ensures Models(a, cnf) <==> Models(a, old(cnf)) && (x in a) == (y in a) {
        PairHolds(a, -x, y);
        PairHolds(a, x, -y);
      }
    }

    method AssertIsPositive(v1: Stem)
      requires Valid()
      modifies `vars, `index, `cnf
      ensures Valid() && Extends(old(vars), vars)
      ensures Encodes(vars, old(cnf), cnf, (r: Reading) => PositiveBits(r, v1, w))
    {
      hide Models;
      hide Satisfies;
      var bits := LookupBits(v1);
      AddClause(bits);
      AddClause([-bits[w - 1]]);
      forall a: Assignment
        ensures Satisfies(a, [-bits[w - 1]]) <==> bits[w - 1] !in a
        ensures Satisfies(a, bits) <==> exists b :: 0 <= b < w && bits[b] in a
      {
        OneHolds(a, -bits[w - 1]);
        SomeHolds(a, bits);
      }
    }

    /** One element of the product: the terms, their sum and what it must be. */
    method WriteElement(n: nat, row: nat, col: nat)
      requires Valid() && row < n && col < n
      modifies `vars, `index, `cnf
      ensures Valid() && Extends(old(vars), vars)
      ensures Encodes(vars, old(cnf), cnf, (r: Reading) => Element(r, n, w, row, col))
    {
      hide Encodes;
      hide GatedBy;
      hide SameBits;
      hide Added;
      ghost var vars0, cnf0 := vars, cnf;
      WriteTerms(n, row, col);
      ghost var vars1, cnf1 := vars, cnf;
      WriteSums(n, row, col);
      EncodesMore(vars1, vars, cnf0, cnf1, cnf, (r: Reading) => Terms(r, w, row, col, n), (r: Reading) => Sums(r, w, row, col, n),
        (r: Reading) => Terms(r, w, row, col, n) && Sums(r, w, row, col, n));
      ghost var vars2, cnf2 := vars, cnf;
      if col != row {
        AssertIsZero(Sum(n - 1, row, col));
        EncodesSame(vars, cnf2, cnf, (r: Reading) => ZeroBits(r, Sum(n - 1, row, col), w), (r: Reading) => Verdict(r, n, w, row, col));
      } else if col == 0 {
        AssertIsPositive(Sum(n - 1, row, col));
        EncodesSame(vars, cnf2, cnf, (r: Reading) => PositiveBits(r, Sum(n - 1, row, col), w), (r: Reading) => Verdict(r, n, w, row, col));
      } else {
        AssertIsEqual(Sum(n - 1, row, col), Sum(n - 1, row - 1, col - 1));
        EncodesSame(vars, cnf2, cnf, (r: Reading) => SameBits(r, Sum(n - 1, row, col), Sum(n - 1, row - 1, col - 1), w),
          (r: Reading) => Verdict(r, n, w, row, col));
      }
      EncodesMore(vars2, vars, cnf0, cnf2, cnf, (r: Reading) => Terms(r, w, row, col, n) && Sums(r, w, row, col, n),
        (r: Reading) => Verdict(r, n, w, row, col), (r: Reading) => Element(r, n, w, row, col));
    }

    method WriteTerms(n: nat, row: nat, col: nat)
      requires Valid()
      modifies `vars, `index, `cnf
      ensures Valid() && Extends(old(vars), vars)
      ensures Encodes(vars, old(cnf), cnf, (r: Reading) => Terms(r, w, row, col, n))
    {
      hide Encodes;
      hide GatedBy;
      ghost var vars0, cnf0 := vars, cnf;
      EncodesNothing(vars, cnf, (r: Reading) => Terms(r, w, row, col, 0));
      for k := 0 to n
        invariant Valid() && Extends(vars0, vars)
        invariant Encodes(vars, cnf0, cnf, (r: Reading) => Terms(r, w, row, col, k))
      {
        ghost var vars1, cnf1 := vars, cnf;
        GateInteger(Inverse(k, col), Entry(row, k), Gated(k, row, col));
        EncodesMore(vars1, vars, cnf0, cnf1, cnf, (r: Reading) => Terms(r, w, row, col, k),
          (r: Reading) => GatedBy(r, Inverse(k, col), Entry(row, k), Gated(k, row, col), w), (r: Reading) => Terms(r, w, row, col, k + 1));
      }
    }

    method WriteSums(n: nat, row: nat, col: nat)
      requires Valid() && n >= 1
      modifies `vars, `index, `cnf
      ensures Valid() && Extends(old(vars), vars)
      ensures Encodes(vars, old(cnf), cnf, (r: Reading) => Sums(r, w, row, col, n))
    {
      hide Encodes;
      hide SameBits;
      hide Added;
      ghost var vars0, cnf0 := vars, cnf;
      AssertIsEqual(Gated(0, row, col), Sum(0, row, col));
      EncodesSame(vars, cnf0, cnf, (r: Reading) => SameBits(r, Gated(0, row, col), Sum(0, row, col), w), (r: Reading) => Sums(r, w, row, col, 1));
      for k := 1 to n
        invariant Valid() && Extends(vars0, vars)
        invariant Encodes(vars, cnf0, cnf, (r: Reading) => Sums(r, w, row, col, k))
      {
        ghost var vars1, cnf1 := vars, cnf;
        Add(Sum(k - 1, row, col), Gated(k, row, col), Sum(k, row, col));
        EncodesMore(vars1, vars, cnf0, cnf1, cnf, (r: Reading) => Sums(r, w, row, col, k),
          (r: Reading) => Added(r, Sum(k - 1, row, col), Gated(k, row, col), Sum(k, row, col), w), (r: Reading) => Sums(r, w, row, col, k + 1));
      }
    }

    /** write_matrix_identity_constraint. */
    method WriteMatrixIdentityConstraint(n: nat)
      requires Valid()
      modifies `vars, `index, `cnf
      ensures Valid() && Extends(old(vars), vars)
      ensures Encodes(vars, old(cnf), cnf, (r: Reading) => Elements(r, n, w, n))
    {
      hide Encodes;
      hide Element;
      ghost var vars0, cnf0 := vars, cnf;
      EncodesNothing(vars, cnf, (r: Reading) => Elements(r, n, w, 0));
      for col := 0 to n
        invariant Valid() && Extends(vars0, vars)
        invariant Encodes(vars, cnf0, cnf, (r: Reading) => Elements(r, n, w, col))
      {
        ghost var vars1, cnf1 := vars, cnf;
        WriteColumn(n, col);
        EncodesMore(vars1, vars, cnf0, cnf1, cnf, (r: Reading) => Elements(r, n, w, col),
          (r: Reading) => Column(r, n, w, col, n), (r: Reading) => Elements(r, n, w, col + 1));
      }
    }

    method WriteColumn(n: nat, col: nat)
      requires Valid() && col < n
      modifies `vars, `index, `cnf
      ensures Valid() && Extends(old(vars), vars)
      ensures Encodes(vars, old(cnf), cnf, (r: Reading) => Column(r, n, w, col, n))
    {
      hide Encodes;
      hide Element;
      ghost var vars0, cnf0 := vars, cnf;
      EncodesNothing(vars, cnf, (r: Reading) => Column(r, n, w, col, 0));
      for row := 0 to n
        invariant Valid() && Extends(vars0, vars)
        invariant Encodes(vars, cnf0, cnf, (r: Reading) => Column(r, n, w, col, row))
      {
        ghost var vars1, cnf1 := vars, cnf;
        WriteElement(n, row, col);
        EncodesMore(vars1, vars, cnf0, cnf1, cnf, (r: Reading) => Column(r, n, w, col, row),
          (r: Reading) => Element(r, n, w, row, col), (r: Reading) => Column(r, n, w, col, row + 1));
      }
    }
  }

  ghost predicate AllXor(a: Assignment, clause: seq<int>, n: nat)
    requires clause != []
  {
    forall i :: 0 <= i < n ==> Satisfies(a, XorClause(clause, i))
  }

  lemma AllXorMore(a: Assignment, clause: seq<int>, n: nat)
    requires clause != []
    ensures AllXor(a, clause, n + 1) <==> AllXor(a, clause, n) && Satisfies(a, XorClause(clause, n))
  {
  }

  lemma ModelsMore(a: Assignment, f: seq<seq<int>>, c: seq<int>)
    ensures Models(a, f + [c]) <==> Models(a, f) && Satisfies(a, c)
  {
    assert (f + [c])[|f|] == c;
    assert forall d :: d in f + [c] <==> d in f || d == c;
  }
}
