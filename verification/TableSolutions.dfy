/** dagster/TableSolutions.cpp and resolve_sorted_vectors of dagster/utilities.cpp: choosing compatible messages and merging
    their literals. */
module Combination {
  const INT_MAX: int := 0x7fff_ffff

  datatype Option<T> = None | Some(value: T)

  function Abs(x: int): nat {
    if x < 0 then -x else x
  }

  /** compareAbs. */
  predicate CompareAbs(a: int, b: int) {
    Abs(a) < Abs(b)
  }

  predicate AbsSorted(s: seq<int>) {
    forall i, j :: 0 <= i < j < |s| ==> Abs(s[i]) <= Abs(s[j])
  }

  predicate StrictlyAbsSorted(s: seq<int>) {
    forall i, j :: 0 <= i < j < |s| ==> Abs(s[i]) < Abs(s[j])
  }

  // ------------------------------------------------------------------- merge

  predicate At(inputs: seq<seq<int>>, i: int, k: int) {
    0 <= i < |inputs| && 0 <= k < |inputs[i]|
  }

  /** Opposite literals at two different places; a zero opposes any other zero. */
  predicate Opposes(inputs: seq<seq<int>>, i: int, k: int, j: int, l: int) {
    At(inputs, i, k) && At(inputs, j, l) && (i != j || k != l) && inputs[i][k] == -inputs[j][l]
  }

  /** Some literals of the inputs below the sentinel oppose each other. */
  ghost predicate Clash(inputs: seq<seq<int>>) {
    exists i, k, j, l :: Opposes(inputs, i, k, j, l) && Abs(inputs[i][k]) < INT_MAX
  }

  ghost predicate Occurs(inputs: seq<seq<int>>, x: int) {
    exists i, k :: At(inputs, i, k) && inputs[i][k] == x
  }

  /** The literals of the inputs below the sentinel, each once, by growing absolute value. */
  ghost predicate IsUnion(inputs: seq<seq<int>>, r: seq<int>) {
    StrictlyAbsSorted(r) && forall x: int :: x in r <==> Occurs(inputs, x) && Abs(x) < INT_MAX
  }

  ghost predicate Cursors(inputs: seq<seq<int>>, upto: seq<nat>) {
    |upto| == |inputs| && forall i :: 0 <= i < |inputs| ==> upto[i] <= |inputs[i]|
  }

  predicate Taken(inputs: seq<seq<int>>, upto: seq<nat>, i: int, k: int) {
    At(inputs, i, k) && i < |upto| && k < upto[i]
  }

  /** The merge with the cursors at upto: r holds what was taken, nothing left is smaller, and nothing taken clashes. */
  ghost predicate Merging(inputs: seq<seq<int>>, upto: seq<nat>, r: seq<int>) {
    && Cursors(inputs, upto) && StrictlyAbsSorted(r)
    && (forall x :: x in r ==> Abs(x) < INT_MAX && FoundTaken(inputs, upto, x))
    && TakenHeld(inputs, upto, r) && NoneLeftBefore(inputs, upto, r) && NoneOpposed(inputs, upto)
  }

  ghost predicate TakenHeld(inputs: seq<seq<int>>, upto: seq<nat>, r: seq<int>) {
    forall i, k :: Taken(inputs, upto, i, k) ==> inputs[i][k] in r
  }

  ghost predicate FoundTaken(inputs: seq<seq<int>>, upto: seq<nat>, x: int) {
    exists i, k :: Taken(inputs, upto, i, k) && inputs[i][k] == x
  }

  ghost predicate NoneLeftBefore(inputs: seq<seq<int>>, upto: seq<nat>, r: seq<int>) {
    forall x, i, k :: x in r && At(inputs, i, k) && !Taken(inputs, upto, i, k) ==> Abs(x) <= Abs(inputs[i][k])
  }

  ghost predicate NoneOpposed(inputs: seq<seq<int>>, upto: seq<nat>) {
    forall i, k, j, l :: Taken(inputs, upto, i, k) && Taken(inputs, upto, j, l) ==> !Opposes(inputs, i, k, j, l)
  }

  /** What is added for the literal v: nothing if it is the last one again. */
  function Extended(r: seq<int>, v: int): seq<int> {
    if v == LastAdded(r) then r else r + [v]
  }

  lemma ExtendedHas(r: seq<int>, v: int)
    requires Abs(v) < INT_MAX
    ensures forall x :: x in Extended(r, v) <==> x in r || x == v
  {
    assert r != [] ==> r[|r| - 1] in r;
  }

  function LastAdded(r: seq<int>): int {
    if r == [] then INT_MAX else r[|r| - 1]
  }

  /** No head is smaller than v. */
  ghost predicate LeastHead(inputs: seq<seq<int>>, upto: seq<nat>, v: int)
    requires Cursors(inputs, upto)
  {
    forall i :: 0 <= i < |inputs| && upto[i] < |inputs[i]| ==> Abs(v) <= Abs(inputs[i][upto[i]])
  }

  function Sum(s: seq<nat>): nat {
    if s == [] then 0 else s[0] + Sum(s[1..])
  }

  lemma {:induction false} SumStep(s: seq<nat>, i: nat)
    requires i < |s|
    ensures Sum(s[i := s[i] + 1]) == Sum(s) + 1
  {
    if i == 0 {
      assert s[0 := s[0] + 1][1..] == s[1..];
    } else {
      SumStep(s[1..], i - 1);
      assert s[i := s[i] + 1][1..] == s[1..][i - 1 := s[i] + 1];
    }
  }

  lemma {:induction false} SumBounded(s: seq<nat>, t: seq<nat>)
    requires |s| == |t| && forall i :: 0 <= i < |s| ==> s[i] <= t[i]
    ensures Sum(s) <= Sum(t)
  {
    if s != [] {
      SumBounded(s[1..], t[1..]);
    }
  }

  /** Nothing that is left is smaller than the least head. */
  lemma LeastOfAll(inputs: seq<seq<int>>, upto: seq<nat>, v: int)
    requires Cursors(inputs, upto) && LeastHead(inputs, upto, v) && forall i :: 0 <= i < |inputs| ==> AbsSorted(inputs[i])
    ensures forall i, k :: At(inputs, i, k) && !Taken(inputs, upto, i, k) ==> Abs(v) <= Abs(inputs[i][k])
  {
    forall i, k | At(inputs, i, k) && !Taken(inputs, upto, i, k) ensures Abs(v) <= Abs(inputs[i][k]) {
      assert AbsSorted(inputs[i]);
      assert Abs(inputs[i][upto[i]]) <= Abs(inputs[i][k]);
    }
  }

  /** Taking the least head keeps the invariant, unless it is opposite to the last literal added. */
  lemma Take(inputs: seq<seq<int>>, upto: seq<nat>, r: seq<int>, i: nat)
    requires Merging(inputs, upto, r) && i < |inputs| && upto[i] < |inputs[i]| && forall j :: 0 <= j < |inputs| ==> AbsSorted(inputs[j])
    requires LeastHead(inputs, upto, inputs[i][upto[i]]) && Abs(inputs[i][upto[i]]) < INT_MAX
    requires inputs[i][upto[i]] != -LastAdded(r)
    ensures Merging(inputs, upto[i := upto[i] + 1], Extended(r, inputs[i][upto[i]]))
  {
    hide Taken;
    hide AbsSorted;
    hide StrictlyAbsSorted;
    hide TakenHeld;
    hide FoundTaken;
    hide NoneLeftBefore;
    hide NoneOpposed;
    hide LeastHead;
    hide Abs;
    hide Extended;
    hide LastAdded;
    var v := inputs[i][upto[i]];
    TakeSmallest(inputs, upto, r, i);
    ExtendedHas(r, v);
    TakeSorted(r, v);
    TakeOpposed(inputs, upto, r, i);
    TakeFound(inputs, upto, r, i);
    TakeHeld(inputs, upto, r, i);
    TakeLeft(inputs, upto, r, i);
    TakeCursors(inputs, upto, i);
  }

  lemma TakeSmallest(inputs: seq<seq<int>>, upto: seq<nat>, r: seq<int>, i: nat)
    requires Cursors(inputs, upto) && NoneLeftBefore(inputs, upto, r) && i < |inputs| && upto[i] < |inputs[i]|
    ensures forall x :: x in r ==> Abs(x) <= Abs(inputs[i][upto[i]])
  {
    assert At(inputs, i, upto[i]) && !Taken(inputs, upto, i, upto[i]);
  }

  lemma TakeHeld(inputs: seq<seq<int>>, upto: seq<nat>, r: seq<int>, i: nat)
    requires Cursors(inputs, upto) && TakenHeld(inputs, upto, r) && i < |inputs| && upto[i] < |inputs[i]| && Abs(inputs[i][upto[i]]) < INT_MAX
    ensures TakenHeld(inputs, upto[i := upto[i] + 1], Extended(r, inputs[i][upto[i]]))
  {
    ExtendedHas(r, inputs[i][upto[i]]);
    TakenMore(inputs, upto, i);
    hide Extended;
    hide Cursors;
  }

  lemma TakeLeft(inputs: seq<seq<int>>, upto: seq<nat>, r: seq<int>, i: nat)
    requires Cursors(inputs, upto) && NoneLeftBefore(inputs, upto, r) && i < |inputs| && upto[i] < |inputs[i]| && Abs(inputs[i][upto[i]]) < INT_MAX
    requires LeastHead(inputs, upto, inputs[i][upto[i]]) && forall j :: 0 <= j < |inputs| ==> AbsSorted(inputs[j])
    ensures NoneLeftBefore(inputs, upto[i := upto[i] + 1], Extended(r, inputs[i][upto[i]]))
  {
    LeastOfAll(inputs, upto, inputs[i][upto[i]]);
    TakenMore(inputs, upto, i);
    ExtendedHas(r, inputs[i][upto[i]]);
    hide AbsSorted;
    hide LeastHead;
    hide Abs;
    hide Taken;
    hide Extended;
    hide Cursors;
  }

  lemma TakeCursors(inputs: seq<seq<int>>, upto: seq<nat>, i: nat)
    requires Cursors(inputs, upto) && i < |inputs| && upto[i] < |inputs[i]|
    ensures Cursors(inputs, upto[i := upto[i] + 1])
  {
  }

  lemma TakeSorted(r: seq<int>, v: int)
    requires StrictlyAbsSorted(r) && v != -LastAdded(r) && (forall x :: x in r ==> Abs(x) <= Abs(v)) && Abs(v) < INT_MAX
    ensures StrictlyAbsSorted(Extended(r, v))
  {
    assert r != [] ==> LastAdded(r) in r;
  }

  /** The least head opposes nothing taken before it. */
  lemma TakeOpposed(inputs: seq<seq<int>>, upto: seq<nat>, r: seq<int>, i: nat)
    requires Cursors(inputs, upto) && NoneOpposed(inputs, upto) && i < |inputs| && upto[i] < |inputs[i]| && StrictlyAbsSorted(r)
    requires TakenHeld(inputs, upto, r) && (forall x :: x in r ==> Abs(x) <= Abs(inputs[i][upto[i]])) && inputs[i][upto[i]] != -LastAdded(r)
    ensures NoneOpposed(inputs, upto[i := upto[i] + 1])
  {
    var v := inputs[i][upto[i]];
    assert r != [] ==> LastAdded(r) in r;
    forall j, l | Taken(inputs, upto, j, l) ensures inputs[j][l] != -v {
      var w := inputs[j][l];
      var q :| 0 <= q < |r| && r[q] == w;
      assert q < |r| - 1 ==> Abs(w) < Abs(LastAdded(r));
    }
    TakenMore(inputs, upto, i);
    hide Taken;
    hide Abs;
    hide StrictlyAbsSorted;
  }

  lemma TakeFound(inputs: seq<seq<int>>, upto: seq<nat>, r: seq<int>, i: nat)
    requires Cursors(inputs, upto) && (forall x :: x in r ==> FoundTaken(inputs, upto, x)) && i < |inputs| && upto[i] < |inputs[i]|
    ensures forall x :: x in r || x == inputs[i][upto[i]] ==> FoundTaken(inputs, upto[i := upto[i] + 1], x)
  {
    TakenMore(inputs, upto, i);
    var upto' := upto[i := upto[i] + 1];
    assert Taken(inputs, upto', i, upto[i]);
    hide Taken;
  }

  lemma TakenMore(inputs: seq<seq<int>>, upto: seq<nat>, i: nat)
    requires Cursors(inputs, upto) && i < |inputs| && upto[i] < |inputs[i]|
    ensures Cursors(inputs, upto[i := upto[i] + 1])
    ensures forall j, l :: Taken(inputs, upto[i := upto[i] + 1], j, l) <==> Taken(inputs, upto, j, l) || (j == i && l == upto[i])
  {
    var upto' := upto[i := upto[i] + 1];
    forall j, l ensures Taken(inputs, upto', j, l) <==> Taken(inputs, upto, j, l) || (j == i && l == upto[i]) {
      if 0 <= j < |upto| && j != i {
        assert upto'[j] == upto[j];
      }
    }
  }

  /** Only literals at or above the sentinel are left: what was taken is the union. */
  lemma Merged(inputs: seq<seq<int>>, upto: seq<nat>, r: seq<int>)
    requires Merging(inputs, upto, r) && LeastHead(inputs, upto, INT_MAX) && forall j :: 0 <= j < |inputs| ==> AbsSorted(inputs[j])
    ensures IsUnion(inputs, r) && !Clash(inputs)
  {
    LeastOfAll(inputs, upto, INT_MAX);
    forall x: int ensures x in r <==> Occurs(inputs, x) && Abs(x) < INT_MAX {
    }
    hide AbsSorted;
  }

  /** resolve_sorted_vectors: None where the source throws. */
  method ResolveSortedVectors(inputs: seq<seq<int>>) returns (result: Option<seq<int>>)
    requires forall i :: 0 <= i < |inputs| ==> AbsSorted(inputs[i])
    ensures result.None? <==> Clash(inputs)
    ensures result.Some? ==> IsUnion(inputs, result.value)
  {
    hide Clash;
    hide IsUnion;
    hide AbsSorted;
    hide Merging;
    hide Sum;
    var upto: seq<nat> := seq(|inputs|, i => 0);
    ghost var lengths := seq(|inputs|, i requires 0 <= i < |inputs| => |inputs[i]|);
    var r: seq<int> := [];
    StartMerging(inputs, upto);
    if inputs == [] {
      Merged(inputs, upto, r);
      return Some(r);
    }
    var lastNumberAdded := INT_MAX;
    while true
      invariant Cursors(inputs, upto) && Merging(inputs, upto, r) && lastNumberAdded == LastAdded(r)
      decreases Sum(lengths) - Sum(upto)
    {
      var least, leastValue := -1, INT_MAX;
      for i := 0 to |inputs|
        invariant least == -1 ==> leastValue == INT_MAX
        invariant least != -1 ==> 0 <= least < |inputs| && upto[least] < |inputs[least]| && leastValue == inputs[least][upto[least]]
        invariant least != -1 ==> Abs(leastValue) < INT_MAX
        invariant forall j :: 0 <= j < i && upto[j] < |inputs[j]| ==> Abs(leastValue) <= Abs(inputs[j][upto[j]])
      {
        if upto[i] < |inputs[i]| {
          if CompareAbs(inputs[i][upto[i]], leastValue) {
            least, leastValue := i, inputs[i][upto[i]];
          }
        }
      }
      if least == -1 {
        break;
      }
      if leastValue == -lastNumberAdded {
        Opposed(inputs, upto, r, least);
        return None;
      }
      Take(inputs, upto, r, least);
      SumStep(upto, least);
      if leastValue != lastNumberAdded {
        r := r + [leastValue];
        lastNumberAdded := leastValue;
      }
      upto := upto[least := upto[least] + 1];
      SumBounded(upto, lengths);
    }
    Merged(inputs, upto, r);
    return Some(r);
  }

  lemma StartMerging(inputs: seq<seq<int>>, upto: seq<nat>)
    requires |upto| == |inputs| && forall i :: 0 <= i < |upto| ==> upto[i] == 0
    ensures Merging(inputs, upto, [])
  {
  }

  lemma Opposed(inputs: seq<seq<int>>, upto: seq<nat>, r: seq<int>, i: nat)
    requires Merging(inputs, upto, r) && i < |inputs| && upto[i] < |inputs[i]| && inputs[i][upto[i]] == -LastAdded(r)
    requires Abs(inputs[i][upto[i]]) < INT_MAX
    ensures Clash(inputs)
  {
    assert LastAdded(r) in r;
    var j, l :| Taken(inputs, upto, j, l) && inputs[j][l] == LastAdded(r);
    assert Opposes(inputs, i, upto[i], j, l);
  }

  /** The union of the inputs is unique. */
  lemma {:induction false} UnionUnique(inputs: seq<seq<int>>, r: seq<int>, q: seq<int>)
    requires IsUnion(inputs, r) && IsUnion(inputs, q)
    ensures r == q
  {
    SameSorted(r, q);
  }

  lemma {:induction false} SameSorted(r: seq<int>, q: seq<int>)
    requires StrictlyAbsSorted(r) && StrictlyAbsSorted(q) && forall x :: x in r <==> x in q
    ensures r == q
  {
    assert q != [] ==> q[0] in q;
    if r != [] {
      var n, m := |r| - 1, |q| - 1;
      assert r[n] in r && r[n] in q;
      assert q[m] in q && q[m] in r;
      assert r[n] == q[m];
      forall x ensures x in r[..n] <==> x in q[..m] {
        assert x in r[..n] <==> x in r && x != r[n];
        assert x in q[..m] <==> x in q && x != q[m];
      }
      SameSorted(r[..n], q[..m]);
    }
  }

  // ------------------------------------------------------------ combinations

  /** No literal of a is the negation of one of b. */
  predicate Apart(a: seq<int>, b: seq<int>) {
    forall i, j :: 0 <= i < |a| && 0 <= j < |b| ==> a[i] != -b[j]
  }

  /** The first r entries of t choose messages of the lists that do not conflict, conflicts being ignored in dumb mode. */
  predicate Chooses(lists: seq<seq<seq<int>>>, t: seq<nat>, r: nat, dumb: bool) {
    && r <= |t| && r <= |lists| && (forall k :: 0 <= k < r ==> t[k] < |lists[k]|)
    && (!dumb ==> forall k, l :: 0 <= k < l < r ==> Apart(lists[l][t[l]], lists[k][t[k]]))
  }

  /** t chooses one message of each list, and no two of them conflict. */
  predicate Compatible(lists: seq<seq<seq<int>>>, t: seq<nat>, dumb: bool) {
    |t| == |lists| && Chooses(lists, t, |t|, dumb)
  }

  function Chosen(lists: seq<seq<seq<int>>>, t: seq<nat>): (c: seq<seq<int>>)
    requires |t| == |lists| && forall k :: 0 <= k < |t| ==> t[k] < |lists[k]|
  {
    seq(|t|, k requires 0 <= k < |t| => lists[k][t[k]])
  }

  predicate Shape(messages: seq<seq<seq<seq<int>>>>, reverse: seq<seq<nat>>) {
    && |messages| == |reverse| && (forall i :: 0 <= i < |messages| ==> |messages[i]| == |reverse|)
    && (forall i, k :: 0 <= i < |reverse| && 0 <= k < |reverse[i]| ==> reverse[i][k] < |reverse|)
  }

  /** The lists of messages to dst, one for each reverse connection. */
  function Incoming(messages: seq<seq<seq<seq<int>>>>, reverse: seq<seq<nat>>, dst: nat): (lists: seq<seq<seq<int>>>)
    requires Shape(messages, reverse) && dst < |reverse|
    ensures |lists| == |reverse[dst]|
    ensures forall k :: 0 <= k < |lists| ==> lists[k] == messages[reverse[dst][k]][dst]
  {
    seq(|reverse[dst]|, k requires 0 <= k < |reverse[dst]| => messages[reverse[dst][k]][dst])
  }

  /** Messages that are consistent with each other and each with itself never clash. */
  lemma CompatibleMerges(lists: seq<seq<seq<int>>>, t: seq<nat>)
    requires Compatible(lists, t, false)
    requires forall k :: 0 <= k < |t| ==> SelfConsistent(lists[k][t[k]])
    ensures !Clash(Chosen(lists, t))
  {
    var c := Chosen(lists, t);
    forall i, k, j, l | At(c, i, k) && At(c, j, l) ensures c[i][k] != -c[j][l] {
      if i == j {
        assert SelfConsistent(c[i]);
      } else if i < j {
        assert Apart(c[j], c[i]);
      } else {
        assert Apart(c[i], c[j]);
      }
    }
  }

  /** No literal of the message is zero and none opposes another. */
  predicate SelfConsistent(m: seq<int>) {
    forall i, j :: 0 <= i < |m| && 0 <= j < |m| ==> m[i] != -m[j]
  }

  predicate Distinct<T(==)>(s: seq<T>) {
    forall i, j :: 0 <= i < j < |s| ==> s[i] != s[j]
  }

  /** Without repeated messages different choices choose different messages. */
  lemma ChoicesDiffer(lists: seq<seq<seq<int>>>, t: seq<nat>, u: seq<nat>, dumb: bool)
    requires Compatible(lists, t, dumb) && Compatible(lists, u, dumb) && forall k :: 0 <= k < |lists| ==> Distinct(lists[k])
    ensures Chosen(lists, t) == Chosen(lists, u) <==> t == u
  {
    if Chosen(lists, t) == Chosen(lists, u) {
      forall k | 0 <= k < |t| ensures t[k] == u[k] {
        assert Chosen(lists, t)[k] == Chosen(lists, u)[k] && Distinct(lists[k]);
      }
    }
  }

  /** In every valid state no two emissions for a node combined the same messages. */
  lemma EmittedOnce(messages: seq<seq<seq<seq<int>>>>, reverse: seq<seq<nat>>, completed: seq<set<seq<nat>>>,
                    emitted: seq<(nat, seq<nat>)>,
                    dumb: bool, p: nat, q: nat)
    requires Shape(messages, reverse) && Tidy(messages) && Recorded(messages, reverse, completed, emitted, dumb)
    requires p < q < |emitted| && emitted[p].0 == emitted[q].0
    ensures emitted[p].0 < |reverse| && Compatible(Incoming(messages, reverse, emitted[p].0), emitted[p].1, dumb)
    ensures Compatible(Incoming(messages, reverse, emitted[p].0), emitted[q].1, dumb)
    ensures Chosen(Incoming(messages, reverse, emitted[p].0), emitted[p].1) != Chosen(Incoming(messages, reverse, emitted[p].0), emitted[q].1)
  {
    hide Chooses;
    hide AbsSorted;
    assert emitted[p] in emitted && emitted[q] in emitted;
    var d := emitted[p].0;
    var lists := Incoming(messages, reverse, d);
    forall k | 0 <= k < |lists| ensures Distinct(lists[k]) {
      assert TidyList(messages[reverse[d][k]][d]);
    }
    ChoicesDiffer(lists, emitted[p].1, emitted[q].1, dumb);
  }

  /** A further message leaves every choice as it was. */
  lemma StillCompatible(messages: seq<seq<seq<seq<int>>>>, reverse: seq<seq<nat>>, from: nat, to: nat, m: seq<int>,
                        dst: nat, t: seq<nat>, dumb: bool)
    requires Shape(messages, reverse) && from < |reverse| && to < |reverse| && dst < |reverse|
    requires Compatible(Incoming(messages, reverse, dst), t, dumb)
    ensures Shape(With(messages, from, to, m), reverse) && Compatible(Incoming(With(messages, from, to, m), reverse, dst), t, dumb)
    ensures Chosen(Incoming(With(messages, from, to, m), reverse, dst), t) == Chosen(Incoming(messages, reverse, dst), t)
  {
    var a, b := Incoming(messages, reverse, dst), Incoming(With(messages, from, to, m), reverse, dst);
    forall k | 0 <= k < |a| ensures a[k] <= b[k] {
    }
    forall k | 0 <= k < |t| ensures t[k] < |b[k]| && b[k][t[k]] == a[k][t[k]] {
      assert a[k] <= b[k];
    }
    hide Apart;
  }

  function With(messages: seq<seq<seq<seq<int>>>>, from: nat, to: nat, m: seq<int>): seq<seq<seq<seq<int>>>>
    requires from < |messages| && to < |messages[from]|
  {
    messages[from := messages[from][to := messages[from][to] + [m]]]
  }

  /** Every message is sorted and none is repeated. */
  predicate Tidy(messages: seq<seq<seq<seq<int>>>>) {
    forall i, j :: 0 <= i < |messages| && 0 <= j < |messages[i]| ==> TidyList(messages[i][j])
  }

  predicate TidyList(list: seq<seq<int>>) {
    Distinct(list) && forall k :: 0 <= k < |list| ==> AbsSorted(list[k])
  }

  /** What was emitted is what is recorded as completed, nothing twice, and all of it compatible. */
  ghost predicate Recorded(messages: seq<seq<seq<seq<int>>>>, reverse: seq<seq<nat>>, completed: seq<set<seq<nat>>>,
                           emitted: seq<(nat, seq<nat>)>, dumb: bool)
    requires Shape(messages, reverse)
  {
    && |completed| == |reverse| && Distinct(emitted)
    && (forall e :: e in emitted ==> e.0 < |completed| && e.1 in completed[e.0])
    && (forall d: nat, t :: d < |completed| && t in completed[d] ==> (d, t) in emitted && Compatible(Incoming(messages, reverse, d), t, dumb))
  }

  /** Every compatible choice for a node at the depth was emitted. */
  ghost predicate Exhausted(messages: seq<seq<seq<seq<int>>>>, reverse: seq<seq<nat>>, completed: seq<set<seq<nat>>>,
                            depths: seq<int>, depth: int, dumb: bool)
    requires Shape(messages, reverse) && |completed| == |reverse| == |depths|
  {
    forall d: nat :: d < |reverse| && depths[d] == depth ==> NodeExhausted(Incoming(messages, reverse, d), completed[d], dumb)
  }

  ghost predicate NodeExhausted(lists: seq<seq<seq<int>>>, done: set<seq<nat>>, dumb: bool) {
    forall t :: Compatible(lists, t, dumb) ==> t in done
  }

  lemma RecordMore(messages: seq<seq<seq<seq<int>>>>, reverse: seq<seq<nat>>, completed: seq<set<seq<nat>>>,
                   emitted: seq<(nat, seq<nat>)>,
                   dumb: bool, d: nat, t: seq<nat>)
    requires Shape(messages, reverse) && Recorded(messages, reverse, completed, emitted, dumb)
    requires d < |reverse| && t !in completed[d] && Compatible(Incoming(messages, reverse, d), t, dumb)
    ensures Recorded(messages, reverse, completed[d := completed[d] + {t}], emitted + [(d, t)], dumb)
  {
    var e' := emitted + [(d, t)];
    assert (d, t) !in emitted;
    assert e'[|emitted|] == (d, t);
    forall e | e in emitted ensures e in e' {
    }
    hide Compatible;
  }

  lemma RecordKept(messages: seq<seq<seq<seq<int>>>>, reverse: seq<seq<nat>>, completed: seq<set<seq<nat>>>,
                   emitted: seq<(nat, seq<nat>)>,
                   dumb: bool, from: nat, to: nat, m: seq<int>)
    requires Shape(messages, reverse) && Recorded(messages, reverse, completed, emitted, dumb) && from < |reverse| && to < |reverse|
    ensures Shape(With(messages, from, to, m), reverse) && Recorded(With(messages, from, to, m), reverse, completed, emitted, dumb)
  {
    forall d: nat, t | d < |completed| && t in completed[d] ensures Compatible(Incoming(With(messages, from, to, m), reverse, d), t, dumb) {
      StillCompatible(messages, reverse, from, to, m, d, t, dumb);
    }
    hide Compatible;
  }

  lemma TidyKept(messages: seq<seq<seq<seq<int>>>>, from: nat, to: nat, m: seq<int>)
    requires Tidy(messages) && from < |messages| && to < |messages[from]| && AbsSorted(m) && m !in messages[from][to]
    ensures Tidy(With(messages, from, to, m))
  {
    assert TidyList(messages[from][to]);
    hide AbsSorted;
    assert TidyList(messages[from][to] + [m]);
    hide TidyList;
  }

  /** sort by compareAbs; the order of equals is open, so any sorted arrangement may result. */
  method SortByAbs(s: seq<int>) returns (r: seq<int>)
    ensures AbsSorted(r) && multiset(r) == multiset(s)
  {
    hide AbsSorted;
    hide Abs;
    r := [];
    NoneSorted();
    for i := 0 to |s|
      invariant AbsSorted(r) && multiset(r) == multiset(s[..i])
    {
      var tie: bool := *;
      var q := 0;
      while q < |r| && (Abs(r[q]) < Abs(s[i]) || (tie && Abs(r[q]) == Abs(s[i])))
        invariant q <= |r| && forall k :: 0 <= k < q ==> Abs(r[k]) <= Abs(s[i])
      {
        q := q + 1;
      }
      assert s[..i + 1] == s[..i] + [s[i]];
      assert r == r[..q] + r[q..];
      Inserted(r, q, s[i]);
      r := r[..q] + [s[i]] + r[q..];
    }
    assert s[..|s|] == s;
  }

  lemma NoneSorted()
    ensures AbsSorted([])
  {
  }

  lemma Inserted(r: seq<int>, q: nat, x: int)
    requires AbsSorted(r) && q <= |r| && (forall k :: 0 <= k < q ==> Abs(r[k]) <= Abs(x)) && (q < |r| ==> Abs(x) <= Abs(r[q]))
    ensures AbsSorted(r[..q] + [x] + r[q..])
  {
  }

  datatype Message = Message(to: int, from: int, assignments: seq<int>)

  datatype Outcome = Combined(message: Message) | NoMessage | BadParameter | Inconsistent

  class TableSolutions {
    const reverse: seq<seq<nat>>
    const depths: seq<int>
    const maxDepth: int
    const dumbMode: bool
    var messages: seq<seq<seq<seq<int>>>>
    var completed: seq<set<seq<nat>>>
    ghost var emitted: seq<(nat, seq<nat>)>

    ghost predicate Valid()
      reads this
    {
      && Shape(messages, reverse) && |depths| == |reverse| && (forall i :: 0 <= i < |reverse| ==> reverse[i] != [])
      && Tidy(messages) && Recorded(messages, reverse, completed, emitted, dumbMode)
    }

    constructor (reverse: seq<seq<nat>>, depths: seq<int>, maxDepth: int, dumbMode: bool)
      requires |depths| == |reverse| && forall i :: 0 <= i < |reverse| ==> reverse[i] != []
      requires forall i, k :: 0 <= i < |reverse| && 0 <= k < |reverse[i]| ==> reverse[i][k] < |reverse|
      ensures Valid() && emitted == []
      ensures this.reverse == reverse && this.depths == depths && this.maxDepth == maxDepth && this.dumbMode == dumbMode
      ensures forall i, j :: 0 <= i < |messages| && 0 <= j < |messages[i]| ==> messages[i][j] == []
    {
      this.reverse, this.depths, this.maxDepth, this.dumbMode := reverse, depths, maxDepth, dumbMode;
      messages := seq(|reverse|, i => seq(|reverse|, j => []));
      completed := seq(|reverse|, i => {});
      emitted := [];
    }

    /** add_message: the sorted message joins the table unless it is there already. */
    method AddMessage(m: Message) returns (ok: bool, sorted: seq<int>)
      requires Valid()
      modifies `messages
      ensures Valid() && (ok <==> 0 <= m.from < |reverse| && 0 <= m.to < |reverse|)
      ensures AbsSorted(sorted) && multiset(sorted) == multiset(m.assignments)
      ensures ok && sorted !in old(messages[m.from][m.to]) ==> messages == With(old(messages), m.from, m.to, sorted)
      ensures !ok || sorted in old(messages[m.from][m.to]) ==> messages == old(messages)
    {
      hide Recorded;
      hide Tidy;
      hide AbsSorted;
      sorted := SortByAbs(m.assignments);
      ok := 0 <= m.from < |reverse| && 0 <= m.to < |reverse|;
      if !ok {
        return;
      }
      for k := 0 to |messages[m.from][m.to]|
        invariant messages == old(messages) && sorted !in messages[m.from][m.to][..k]
      {
        if messages[m.from][m.to][k] == sorted {
          return;
        }
      }
      var list := messages[m.from][m.to];
      assert list[..|list|] == list;
      TidyKept(messages, m.from, m.to, sorted);
      RecordKept(messages, reverse, completed, emitted, dumbMode, m.from, m.to, sorted);
      messages := messages[m.from := messages[m.from][m.to := messages[m.from][m.to] + [sorted]]];
    }

    /** The conflict check of _get_combination for one message. */
    method Conflicts(dst: nat, mess: seq<int>, indexes: seq<nat>, r: nat) returns (b: bool)
      requires Shape(messages, reverse) && dst < |reverse| && r <= |reverse[dst]| && r <= |indexes|
      requires forall k :: 0 <= k < r ==> indexes[k] < |Incoming(messages, reverse, dst)[k]|
      ensures b <==> exists k :: 0 <= k < r && !Apart(mess, Incoming(messages, reverse, dst)[k][indexes[k]])
    {
      ghost var lists := Incoming(messages, reverse, dst);
      for a := 0 to |mess|
        invariant forall i, k, j :: 0 <= i < a && 0 <= k < r && 0 <= j < |lists[k][indexes[k]]| ==> mess[i] != -lists[k][indexes[k]][j]
      {
        for c := 0 to r
          invariant forall k, j :: 0 <= k < c && 0 <= j < |lists[k][indexes[k]]| ==> mess[a] != -lists[k][indexes[k]][j]
        {
          var other := messages[reverse[dst][c]][dst][indexes[c]];
          assert other == lists[c][indexes[c]];
          for j := 0 to |other|
            invariant forall l :: 0 <= l < j ==> mess[a] != -other[l]
          {
            if mess[a] == -other[j] {
              return true;
            }
          }
        }
      }
      b := false;
    }

    /** _get_combination: fills the indexes from r on with a compatible choice that was not emitted, if there is one. */
    method GetCombination(dst: nat, indexes: seq<nat>, r: nat) returns (found: bool, indexes': seq<nat>)
      requires Shape(messages, reverse) && |completed| == |reverse| && dst < |reverse| && r < |reverse[dst]| == |indexes|
      requires Chooses(Incoming(messages, reverse, dst), indexes, r, dumbMode)
      modifies `completed
      ensures |indexes'| == |indexes| && indexes'[..r] == indexes[..r]
      ensures !found ==> completed == old(completed) && BranchDone(Incoming(messages, reverse, dst), completed[dst], indexes, r, dumbMode)
      ensures found ==> Compatible(Incoming(messages, reverse, dst), indexes', dumbMode) && indexes' !in old(completed)[dst]
      ensures found ==> completed == old(completed)[dst := old(completed)[dst] + {indexes'}]
      decreases |reverse[dst]| - r
    {
      hide Chooses;
      hide Apart;
      hide BranchDone;
      hide BranchDoneTo;
      ghost var lists := Incoming(messages, reverse, dst);
      var src := reverse[dst][r];
      indexes' := indexes;
      NoneDone(lists, completed[dst], indexes, r, dumbMode);
      for m := 0 to |messages[src][dst]|
        invariant completed == old(completed) && |indexes'| == |indexes| && indexes'[..r] == indexes[..r]
        invariant Chooses(lists, indexes', r, dumbMode)
        invariant BranchDoneTo(lists, completed[dst], indexes, r, m, dumbMode)
      {
        var mess := messages[src][dst][m];
        var conflict := false;
        if !dumbMode {
          ChoosesInRange(lists, indexes', r, dumbMode);
          conflict := Conflicts(dst, mess, indexes', r);
        }
        if conflict {
          SkipDone(lists, completed[dst], indexes, indexes', r, m, dumbMode);
        } else {
          ChooseMore(lists, indexes', r, m, dumbMode);
          indexes' := indexes'[r := m];
          if r + 1 < |reverse[dst]| {
            ghost var before := indexes';
            found, indexes' := GetCombination(dst, indexes', r + 1);
            Tails(before, indexes', indexes, r, m);
            if found {
              return;
            }
            SamePrefix(lists, before, indexes', r, dumbMode);
            DeeperDone(lists, completed[dst], indexes, before, r, m, dumbMode);
          } else {
            assert Compatible(lists, indexes', dumbMode);
            if indexes' in completed[dst] {
              LeafDone(lists, completed[dst], indexes, indexes', r, m, dumbMode);
              SamePrefix(lists, indexes', indexes', r, dumbMode);
            } else {
              completed := completed[dst := completed[dst] + {indexes'}];
              found := true;
              return;
            }
          }
        }
      }
      found := false;
      AllDone(lists, completed[dst], indexes, r, dumbMode);
    }

    /** get_new_message_combination. */
    method GetNewMessageCombination(depth: int) returns (r: Outcome)
      requires Valid()
      modifies `completed, `emitted
      ensures Valid()
      ensures r.BadParameter? <==> depth < 0 || depth > maxDepth
      ensures r.NoMessage? <==> 0 <= depth <= maxDepth && old(Exhausted(messages, reverse, completed, depths, depth, dumbMode))
      ensures r.BadParameter? || r.NoMessage? ==> completed == old(completed) && emitted == old(emitted)
      ensures r.Combined? || r.Inconsistent? ==> |emitted| == |old(emitted)| + 1
      ensures r.Combined? || r.Inconsistent? ==> Emits(messages, reverse, depths, depth, dumbMode, old(completed), completed, emitted[|emitted| - 1], r)
      ensures r.Combined? || r.Inconsistent? ==> emitted == old(emitted) + [emitted[|emitted| - 1]]
    {
      if depth < 0 || depth > maxDepth {
        return BadParameter;
      }
      hide Recorded;
      hide Tidy;
      hide Chooses;
      hide BranchDone;
      hide IsUnion;
      hide Clash;
      hide AbsSorted;
      RecordedLength(messages, reverse, completed, emitted, dumbMode);
      for i := 0 to |reverse|
        invariant completed == old(completed) && emitted == old(emitted)
        invariant forall d: nat :: d < i && depths[d] == depth ==> NodeExhausted(Incoming(messages, reverse, d), completed[d], dumbMode)
      {
        if depths[i] == depth {
          var start: seq<nat> := seq(|reverse[i]|, k => 0);
          ChoosesNothing(Incoming(messages, reverse, i), start, dumbMode);
          ghost var lists := Incoming(messages, reverse, i);
          var found, t := GetCombination(i, start, 0);
          if found {
            RecordMore(messages, reverse, old(completed), emitted, dumbMode, i, t);
            emitted := emitted + [(i, t)];
            CompatibleRange(lists, t, dumbMode);
            assert !NodeExhausted(lists, old(completed)[i], dumbMode);
            r := Combine(i, t);
            return;
          }
          BranchIsAll(lists, completed[i], start, dumbMode);
        }
      }
      r := NoMessage;
    }

    /** The messages of the choice, merged into a new message. */
    method Combine(dst: nat, t: seq<nat>) returns (r: Outcome)
      requires Shape(messages, reverse) && Tidy(messages) && dst < |reverse| && reverse[dst] != [] && |t| == |reverse[dst]|
      requires forall k :: 0 <= k < |t| ==> t[k] < |Incoming(messages, reverse, dst)[k]|
      ensures r == Inconsistent || r.Combined?
      ensures r.Inconsistent? <==> Clash(Chosen(Incoming(messages, reverse, dst), t))
      ensures r.Combined? ==> r.message.to == dst && r.message.from == reverse[dst][0]
      ensures r.Combined? ==> IsUnion(Chosen(Incoming(messages, reverse, dst), t), r.message.assignments)
    {
      hide IsUnion;
      hide Clash;
      hide AbsSorted;
      hide Tidy;
      var literals: seq<seq<int>> := [];
      ghost var lists := Incoming(messages, reverse, dst);
      for k := 0 to |reverse[dst]|
        invariant |literals| == k && forall l :: 0 <= l < k ==> literals[l] == lists[l][t[l]] && AbsSorted(literals[l])
      {
        TidyAt(messages, reverse[dst][k], dst, t[k]);
        literals := literals + [messages[reverse[dst][k]][dst][t[k]]];
      }
      assert literals == Chosen(lists, t);
      var merged := ResolveSortedVectors(literals);
      match merged {
        case None => r := Inconsistent;
        case Some(a) => r := Combined(Message(dst, reverse[dst][0], a));
      }
    }
  }

  /** What a call that finds a choice does: the choice is new and compatible, is recorded, and its messages are merged. */
  ghost predicate Emits(messages: seq<seq<seq<seq<int>>>>, reverse: seq<seq<nat>>, depths: seq<int>, depth: int, dumb: bool,
                        before: seq<set<seq<nat>>>, after: seq<set<seq<nat>>>, e: (nat, seq<nat>), r: Outcome)
    requires Shape(messages, reverse) && |depths| == |reverse|
  {
    && e.0 < |reverse| && reverse[e.0] != [] && depths[e.0] == depth && |before| == |reverse| && e.1 !in before[e.0]
    && Compatible(Incoming(messages, reverse, e.0), e.1, dumb) && after == before[e.0 := before[e.0] + {e.1}]
    && (r.Inconsistent? <==> Clash(Chosen(Incoming(messages, reverse, e.0), e.1)))
    && (r.Combined? ==> r.message.to == e.0 && r.message.from == reverse[e.0][0])
    && (r.Combined? ==> IsUnion(Chosen(Incoming(messages, reverse, e.0), e.1), r.message.assignments))
  }

  /** Every compatible choice that starts like t up to r is done. */
  ghost predicate BranchDone(lists: seq<seq<seq<int>>>, done: set<seq<nat>>, t: seq<nat>, r: nat, dumb: bool) {
    r <= |t| && forall u :: Compatible(lists, u, dumb) && |u| == |t| && u[..r] == t[..r] ==> u in done
  }

  /** The same for those that choose a message before m at r. */
  ghost predicate BranchDoneTo(lists: seq<seq<seq<int>>>, done: set<seq<nat>>, t: seq<nat>, r: nat, m: nat, dumb: bool) {
    r < |t| && forall u :: Compatible(lists, u, dumb) && |u| == |t| && u[..r] == t[..r] && u[r] < m ==> u in done
  }

  lemma NoneDone(lists: seq<seq<seq<int>>>, done: set<seq<nat>>, t: seq<nat>, r: nat, dumb: bool)
    requires r < |t|
    ensures BranchDoneTo(lists, done, t, r, 0, dumb)
  {
  }

  lemma AllDone(lists: seq<seq<seq<int>>>, done: set<seq<nat>>, t: seq<nat>, r: nat, dumb: bool)
    requires r < |t| == |lists| && BranchDoneTo(lists, done, t, r, |lists[r]|, dumb)
    ensures BranchDone(lists, done, t, r, dumb)
  {
  }

  lemma ChoosesInRange(lists: seq<seq<seq<int>>>, t: seq<nat>, r: nat, dumb: bool)
    requires Chooses(lists, t, r, dumb)
    ensures r <= |t| && r <= |lists| && forall k :: 0 <= k < r ==> t[k] < |lists[k]|
  {
  }

  lemma CompatibleRange(lists: seq<seq<seq<int>>>, t: seq<nat>, dumb: bool)
    requires Compatible(lists, t, dumb)
    ensures |t| == |lists| && forall k :: 0 <= k < |t| ==> t[k] < |lists[k]|
  {
  }

  lemma ChoosesNothing(lists: seq<seq<seq<int>>>, t: seq<nat>, dumb: bool)
    ensures Chooses(lists, t, 0, dumb)
  {
  }

  /** A message in conflict with one chosen before is in no compatible choice. */
  lemma SkipDone(lists: seq<seq<seq<int>>>, done: set<seq<nat>>, t: seq<nat>, t': seq<nat>, r: nat, m: nat, dumb: bool)
    requires BranchDoneTo(lists, done, t, r, m, dumb) && |t'| == |t| == |lists| && t'[..r] == t[..r] && !dumb && m < |lists[r]|
    requires forall k :: 0 <= k < r ==> t'[k] < |lists[k]|
    requires exists k :: 0 <= k < r && !Apart(lists[r][m], lists[k][t'[k]])
    ensures BranchDoneTo(lists, done, t, r, m + 1, dumb)
  {
    hide Apart;
    var k :| 0 <= k < r && !Apart(lists[r][m], lists[k][t'[k]]);
    forall u | Compatible(lists, u, dumb) && |u| == |t| && u[..r] == t[..r] && u[r] < m + 1 ensures u in done {
      assert u[..r][k] == t'[..r][k];
      assert Apart(lists[r][u[r]], lists[k][u[k]]);
    }
  }

  lemma ChooseMore(lists: seq<seq<seq<int>>>, t: seq<nat>, r: nat, m: nat, dumb: bool)
    requires Chooses(lists, t, r, dumb) && r < |t| == |lists| && m < |lists[r]|
    requires !dumb ==> forall k :: 0 <= k < r ==> Apart(lists[r][m], lists[k][t[k]])
    ensures Chooses(lists, t[r := m], r + 1, dumb)
  {
    hide Apart;
  }

  lemma Tails(before: seq<nat>, after: seq<nat>, t: seq<nat>, r: nat, m: nat)
    requires |before| == |after| == |t| && r < |t| && before[..r + 1] == after[..r + 1] && before[..r] == t[..r] && before[r] == m
    ensures after[..r] == t[..r] && after[r] == m
  {
    assert after[..r] == after[..r + 1][..r];
    assert before[..r] == before[..r + 1][..r];
    assert after[r] == after[..r + 1][r];
    assert before[r] == before[..r + 1][r];
  }

  lemma SamePrefix(lists: seq<seq<seq<int>>>, t: seq<nat>, u: seq<nat>, r: nat, dumb: bool)
    requires r < |t| == |u| && t[..r] == u[..r] && Chooses(lists, t, r + 1, dumb)
    ensures Chooses(lists, u, r, dumb)
  {
    hide Apart;
    forall k | 0 <= k < r ensures u[k] == t[k] {
      assert t[..r][k] == u[..r][k];
    }
  }

  lemma DeeperDone(lists: seq<seq<seq<int>>>, done: set<seq<nat>>, t: seq<nat>, t': seq<nat>, r: nat, m: nat, dumb: bool)
    requires BranchDoneTo(lists, done, t, r, m, dumb) && |t'| == |t| && t'[..r] == t[..r] && t'[r] == m
    requires BranchDone(lists, done, t', r + 1, dumb)
    ensures BranchDoneTo(lists, done, t, r, m + 1, dumb)
  {
    hide Compatible;
    forall u | Compatible(lists, u, dumb) && |u| == |t| && u[..r] == t[..r] && u[r] < m + 1 ensures u in done {
      if u[r] == m {
        assert u[..r + 1] == u[..r] + [m] && t'[..r + 1] == t'[..r] + [m];
      }
    }
  }

  lemma LeafDone(lists: seq<seq<seq<int>>>, done: set<seq<nat>>, t: seq<nat>, t': seq<nat>, r: nat, m: nat, dumb: bool)
    requires BranchDoneTo(lists, done, t, r, m, dumb) && |t'| == |t| == r + 1 && t'[..r] == t[..r] && t'[r] == m && t' in done
    ensures BranchDoneTo(lists, done, t, r, m + 1, dumb)
  {
    hide Compatible;
    forall u | Compatible(lists, u, dumb) && |u| == |t| && u[..r] == t[..r] && u[r] < m + 1 ensures u in done {
      if u[r] == m {
        assert u == u[..r] + [m] && t' == t'[..r] + [m];
      }
    }
  }

  lemma BranchIsAll(lists: seq<seq<seq<int>>>, done: set<seq<nat>>, t: seq<nat>, dumb: bool)
    requires |t| == |lists| && BranchDone(lists, done, t, 0, dumb)
    ensures NodeExhausted(lists, done, dumb)
  {
    hide Chooses;
    forall u | Compatible(lists, u, dumb) ensures u in done {
      assert u[..0] == t[..0];
    }
  }

  lemma TidyAt(messages: seq<seq<seq<seq<int>>>>, i: nat, j: nat, k: nat)
    requires Tidy(messages) && i < |messages| && j < |messages[i]| && k < |messages[i][j]|
    ensures AbsSorted(messages[i][j][k])
  {
    assert TidyList(messages[i][j]);
    hide AbsSorted;
  }

  lemma RecordedLength(messages: seq<seq<seq<seq<int>>>>, reverse: seq<seq<nat>>, completed: seq<set<seq<nat>>>,
                       emitted: seq<(nat, seq<nat>)>, dumb: bool)
    requires Shape(messages, reverse) && Recorded(messages, reverse, completed, emitted, dumb)
    ensures |completed| == |reverse|
  {
  }
}
