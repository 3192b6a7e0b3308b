/** dagster/MasterOrganiser.cpp and dagster/DisorderedArray.h: which message each worker works on, and how the workers are
    spread over the buffered messages. A message is named by a number, a null pointer is None. */
module Organiser {
  import opened Logic

  datatype Slot = None | Some(m: nat)

  /** What each worker will be working on once its reassignment, if any, has reached it. */
  function Targets(working: seq<Slot>, toBe: seq<Slot>): (t: seq<Slot>)
    requires |working| == |toBe|
    ensures |t| == |working|
  {
    seq(|working|, i requires 0 <= i < |working| => if toBe[i].Some? then toBe[i] else working[i])
  }

  /** The number of workers on message m. */
  function Load(targets: seq<Slot>, m: nat): nat {
    if targets == [] then 0 else Load(targets[..|targets| - 1], m) + if targets[|targets| - 1] == Some(m) then 1 else 0
  }

  function TotalLoad(targets: seq<Slot>, buffer: seq<nat>): nat {
    if buffer == [] then 0 else TotalLoad(targets, buffer[..|buffer| - 1]) + Load(targets, buffer[|buffer| - 1])
  }

  function SumOfSquares(targets: seq<Slot>, buffer: seq<nat>): nat {
    if buffer == [] then 0
    else SumOfSquares(targets, buffer[..|buffer| - 1]) + Load(targets, buffer[|buffer| - 1]) * Load(targets, buffer[|buffer| - 1])
  }

  predicate InBuffer(slots: seq<Slot>, buffer: seq<nat>) {
    forall i :: 0 <= i < |slots| && slots[i].Some? ==> slots[i].m in buffer
  }

  /** Every worker has a target, and every message the floor or the ceiling of its share of the workers. */
  predicate Balanced(targets: seq<Slot>, buffer: seq<nat>) {
    buffer != [] ==>
      && (forall i :: 0 <= i < |targets| ==> targets[i].Some? && targets[i].m in buffer)
      && (forall m :: m in buffer ==> |targets| / |buffer| <= Load(targets, m) <= (|targets| + |buffer| - 1) / |buffer|)
  }

  /** Every worker has a target and no two loads differ by more than one. */
  ghost predicate Even(targets: seq<Slot>, buffer: seq<nat>) {
    && (forall i :: 0 <= i < |targets| ==> targets[i].Some?)
    && forall a, b :: a in buffer && b in buffer ==> Load(targets, a) <= Load(targets, b) + 1
  }

  // ------------------------------------------------------------------ loads

  lemma {:induction false} LoadMoved(targets: seq<Slot>, i: nat, s: Slot, m: nat)
    requires i < |targets|
    ensures Load(targets[i := s], m) + (if targets[i] == Some(m) then 1 else 0) == Load(targets, m) + if s == Some(m) then 1 else 0
  {
    var n := |targets| - 1;
    if i < n {
      LoadMoved(targets[..n], i, s, m);
      assert targets[i := s][..n] == targets[..n][i := s];
    } else {
      assert targets[i := s][..n] == targets[..n];
    }
  }

  lemma {:induction false} LoadPositive(targets: seq<Slot>, m: nat)
    ensures Load(targets, m) > 0 <==> Some(m) in targets
  {
    if targets != [] {
      var n := |targets| - 1;
      LoadPositive(targets[..n], m);
      assert targets == targets[..n] + [targets[n]];
    }
  }

  /** Moving a worker from message a to message b, in squares. */
  lemma {:induction false} SquaresMoved(targets: seq<Slot>, buffer: seq<nat>, i: nat, a: nat, b: nat)
    requires i < |targets| && targets[i] == Some(a) && a != b && NoDuplicates(buffer)
    ensures SumOfSquares(targets[i := Some(b)], buffer) ==
      SumOfSquares(targets, buffer) + (if a in buffer then 1 - 2 * Load(targets, a) else 0) + if b in buffer then 2 * Load(targets, b) + 1 else 0
  {
    if buffer != [] {
      var n := |buffer| - 1;
      var m := buffer[n];
      assert buffer == buffer[..n] + [m];
      SquaresMoved(targets, buffer[..n], i, a, b);
      LoadMoved(targets, i, Some(b), m);
      assert m !in buffer[..n];
      SquareSteps(Load(targets, m));
      if m == a {
        assert Load(targets[i := Some(b)], m) == Load(targets, m) - 1;
      } else if m == b {
        assert Load(targets[i := Some(b)], m) == Load(targets, m) + 1;
      } else {
        assert Load(targets[i := Some(b)], m) == Load(targets, m);
      }
    }
  }

  lemma SquareSteps(x: int)
    ensures (x - 1) * (x - 1) == x * x - 2 * x + 1 && (x + 1) * (x + 1) == x * x + 2 * x + 1
  {
  }

  lemma {:induction false} TotalWithout(targets: seq<Slot>, s: Slot, buffer: seq<nat>)
    requires NoDuplicates(buffer)
    ensures TotalLoad(targets + [s], buffer) == TotalLoad(targets, buffer) + if s.Some? && s.m in buffer then 1 else 0
  {
    if buffer != [] {
      var n := |buffer| - 1;
      assert buffer == buffer[..n] + [buffer[n]];
      assert buffer[n] !in buffer[..n];
      assert (targets + [s])[..|targets|] == targets;
      TotalWithout(targets, s, buffer[..n]);
    }
  }

  lemma {:induction false} NoLoad(buffer: seq<nat>)
    ensures TotalLoad([], buffer) == 0
  {
    if buffer != [] {
      NoLoad(buffer[..|buffer| - 1]);
    }
  }

  /** Every worker is on exactly one message: the loads add up to the number of workers. */
  lemma {:induction false} Conserved(targets: seq<Slot>, buffer: seq<nat>)
    requires NoDuplicates(buffer) && forall i :: 0 <= i < |targets| ==> targets[i].Some? && targets[i].m in buffer
    ensures TotalLoad(targets, buffer) == |targets|
  {
    if targets == [] {
      NoLoad(buffer);
    } else {
      var n := |targets| - 1;
      Conserved(targets[..n], buffer);
      TotalWithout(targets[..n], targets[n], buffer);
      assert targets == targets[..n] + [targets[n]];
    }
  }

  /** Bounds on each load bound the total, strictly if one load is strictly inside. */
  lemma {:induction false} TotalBounds(targets: seq<Slot>, buffer: seq<nat>, lo: nat, hi: nat, at: nat)
    requires forall i :: 0 <= i < |buffer| ==> lo <= Load(targets, buffer[i]) <= hi
    ensures lo * |buffer| <= TotalLoad(targets, buffer) <= hi * |buffer|
    ensures at < |buffer| && Load(targets, buffer[at]) < hi ==> TotalLoad(targets, buffer) < hi * |buffer|
    ensures at < |buffer| && Load(targets, buffer[at]) > lo ==> TotalLoad(targets, buffer) > lo * |buffer|
  {
    if buffer != [] {
      var n := |buffer| - 1;
      TotalBounds(targets, buffer[..n], lo, hi, at);
      OneMore(lo, n);
      OneMore(hi, n);
      assert at < n ==> buffer[..n][at] == buffer[at];
    }
  }

  lemma OneMore(x: nat, n: nat)
    ensures x * (n + 1) == x * n + x
  {
  }

  /** Loads that differ by at most one are the floor or the ceiling of the mean. */
  lemma WithinOne(targets: seq<Slot>, buffer: seq<nat>, lo: nat, hi: nat, at: nat, top: nat)
    requires NoDuplicates(buffer) && forall i :: 0 <= i < |targets| ==> targets[i].Some? && targets[i].m in buffer
    requires (forall i :: 0 <= i < |buffer| ==> lo <= Load(targets, buffer[i]) <= hi) && hi <= lo + 1
    requires at < |buffer| && Load(targets, buffer[at]) == lo && top < |buffer| && Load(targets, buffer[top]) == hi
    ensures Balanced(targets, buffer)
  {
    Conserved(targets, buffer);
    TotalBounds(targets, buffer, lo, hi, at);
    TotalBounds(targets, buffer, lo, hi, top);
    var w, n := |targets|, |buffer|;
    Quotient(w, n, lo, hi);
    forall m | m in buffer ensures w / n <= Load(targets, m) <= (w + n - 1) / n {
      var i :| 0 <= i < n && buffer[i] == m;
    }
  }

  lemma Quotient(w: nat, n: nat, lo: nat, hi: nat)
    requires n > 0 && lo <= hi <= lo + 1 && lo * n <= w <= hi * n && (lo < hi ==> lo * n < w < hi * n)
    ensures w / n == lo && (w + n - 1) / n == hi
  {
    if lo == hi {
      assert w == lo * n;
      DivUnique(w, n, lo, 0);
      DivUnique(w + n - 1, n, lo, n - 1);
    } else {
      assert hi * n == lo * n + n;
      DivUnique(w, n, lo, w - lo * n);
      DivUnique(w + n - 1, n, hi, w + n - 1 - hi * n);
    }
  }

  lemma DivUnique(a: nat, n: nat, q: nat, r: nat)
    requires n > 0 && r < n && a == q * n + r
    ensures a / n == q
  {
    var k := a / n;
    assert a == k * n + a % n;
    MulMonotone(q + 1, k, n);
    MulMonotone(k + 1, q, n);
    OneMore(n, q);
    OneMore(n, k);
  }

  lemma MulMonotone(x: int, y: int, n: nat)
    ensures x <= y ==> x * n <= y * n
  {
  }

  /** While messages do not outnumber workers, none is left without a worker. */
  lemma NoneUncovered(targets: seq<Slot>, buffer: seq<nat>)
    requires Balanced(targets, buffer) && 0 < |buffer| <= |targets|
    ensures forall m :: m in buffer ==> Some(m) in targets
  {
    var w, n := |targets|, |buffer|;
    MulMonotone(w / n, 0, n);
    assert w == (w / n) * n + w % n;
    forall m | m in buffer ensures Some(m) in targets {
      LoadPositive(targets, m);
    }
  }

  // ------------------------------------------------------------- allocation

  /** Entry k of the buffer is the first message with the fewest workers. */
  ghost predicate FewestAt(targets: seq<Slot>, buffer: seq<nat>, k: nat) {
    && k < |buffer|
    && (forall j :: 0 <= j < |buffer| ==> Load(targets, buffer[k]) <= Load(targets, buffer[j]))
    && forall j :: 0 <= j < k ==> Load(targets, buffer[k]) < Load(targets, buffer[j])
  }

  /** Entry k of the buffer is the first message with the most workers. */
  ghost predicate MostAt(targets: seq<Slot>, buffer: seq<nat>, k: nat) {
    && k < |buffer|
    && (forall j :: 0 <= j < |buffer| ==> Load(targets, buffer[j]) <= Load(targets, buffer[k]))
    && forall j :: 0 <= j < k ==> Load(targets, buffer[j]) < Load(targets, buffer[k])
  }

  ghost predicate FewestIs(targets: seq<Slot>, buffer: seq<nat>, count: nat, s: Slot) {
    if buffer == [] then count == |targets| + 1 && s == None
    else exists k: nat :: FewestAt(targets, buffer, k) && s == Some(buffer[k]) && count == Load(targets, buffer[k])
  }

  ghost predicate MostIs(targets: seq<Slot>, buffer: seq<nat>, count: nat, s: Slot) {
    if count == 0 then s == None && forall k :: 0 <= k < |buffer| ==> Load(targets, buffer[k]) == 0
    else exists k: nat :: MostAt(targets, buffer, k) && s == Some(buffer[k]) && count == Load(targets, buffer[k])
  }

  /** An idle worker gets the first message with the fewest workers, if there is any message. */
  ghost predicate FilledAt(working: seq<Slot>, buffer: seq<nat>, s: seq<Slot>, t: seq<Slot>, i: nat) {
    && |working| == |s| && i < |s|
    && if working[i] == None && s[i] == None && buffer != [] then
         exists k: nat :: FewestAt(Targets(working, s), buffer, k) && t == s[i := Some(buffer[k])]
       else t == s
  }

  /** Worker i is the one taken off message m: the first that is only about to start on it, or, if there is none, the first that is
      working on it and stays. */
  ghost predicate TakenFrom(working: seq<Slot>, s: seq<Slot>, m: nat, i: nat) {
    && |working| == |s| && i < |s|
    && if Some(m) in s then s[i] == Some(m) && forall j :: 0 <= j < i ==> s[j] != Some(m)
       else working[i] == Some(m) && s[i] == None && forall j :: 0 <= j < i ==> !(working[j] == Some(m) && s[j] == None)
  }

  /** One worker changes from the fullest message to the emptiest, their loads being two or more apart. */
  ghost predicate MovedBetween(working: seq<Slot>, buffer: seq<nat>, s: seq<Slot>, t: seq<Slot>, k: nat, l: nat, i: nat) {
    && |working| == |s| && FewestAt(Targets(working, s), buffer, k) && MostAt(Targets(working, s), buffer, l)
    && Load(Targets(working, s), buffer[l]) >= Load(Targets(working, s), buffer[k]) + 2
    && TakenFrom(working, s, buffer[l], i) && t == s[i := Some(buffer[k])]
  }

  ghost predicate Moves(working: seq<Slot>, buffer: seq<nat>, s: seq<Slot>, t: seq<Slot>) {
    exists k: nat, l: nat, i: nat :: MovedBetween(working, buffer, s, t, k, l, i)
  }

  lemma CountsStart(targets: seq<Slot>)
    ensures FewestIs(targets, [], |targets| + 1, None) && MostIs(targets, [], 0, None)
  {
  }

  lemma FewestGoesOn(targets: seq<Slot>, buffer: seq<nat>, i: nat, count: nat, s: Slot)
    requires i < |buffer| && FewestIs(targets, buffer[..i], count, s)
    ensures var load := Load(targets, buffer[i]);
      if load < count then FewestIs(targets, buffer[..i + 1], load, Some(buffer[i])) else FewestIs(targets, buffer[..i + 1], count, s)
  {
    LoadAtMost(targets, buffer[i]);
    hide Load;
    var next, load := buffer[..i + 1], Load(targets, buffer[i]);
    assert forall j :: 0 <= j < i ==> next[j] == buffer[..i][j];
    if i > 0 {
      var k: nat :| FewestAt(targets, buffer[..i], k) && s == Some(buffer[..i][k]) && count == Load(targets, buffer[..i][k]);
      assert FewestAt(targets, next, if load < count then i else k);
    } else {
      assert FewestAt(targets, next, 0);
    }
  }

  lemma MostGoesOn(targets: seq<Slot>, buffer: seq<nat>, i: nat, count: nat, s: Slot)
    requires i < |buffer| && MostIs(targets, buffer[..i], count, s)
    ensures var load := Load(targets, buffer[i]);
      if load > count then MostIs(targets, buffer[..i + 1], load, Some(buffer[i])) else MostIs(targets, buffer[..i + 1], count, s)
  {
    hide Load;
    var next, load := buffer[..i + 1], Load(targets, buffer[i]);
    assert forall j :: 0 <= j < i ==> next[j] == buffer[..i][j];
    if count > 0 {
      var k: nat :| MostAt(targets, buffer[..i], k) && s == Some(buffer[..i][k]) && count == Load(targets, buffer[..i][k]);
      assert MostAt(targets, next, if load > count then i else k);
    } else if load > 0 {
      assert MostAt(targets, next, i);
    }
  }

  /** Loads two apart: the move takes a worker from the fullest message to the emptiest. */
  lemma MoveMoves(working: seq<Slot>, buffer: seq<nat>, s: seq<Slot>, t: seq<Slot>, minCount: nat, minMessage: Slot,
                  maxCount: nat, maxMessage: Slot)
    requires |working| == |s| && minMessage.Some? && maxMessage.Some? && maxCount >= minCount + 2
    requires FewestIs(Targets(working, s), buffer, minCount, minMessage) && MostIs(Targets(working, s), buffer, maxCount, maxMessage)
    requires exists i: nat :: TakenFrom(working, s, maxMessage.m, i) && t == s[i := minMessage]
    ensures Moves(working, buffer, s, t)
  {
    var targets := Targets(working, s);
    hide Load;
    var k: nat :| FewestAt(targets, buffer, k) && minMessage == Some(buffer[k]) && minCount == Load(targets, buffer[k]);
    var l: nat :| MostAt(targets, buffer, l) && maxMessage == Some(buffer[l]) && maxCount == Load(targets, buffer[l]);
    var i: nat :| TakenFrom(working, s, maxMessage.m, i) && t == s[i := minMessage];
    hide FewestAt;
    hide MostAt;
    hide TakenFrom;
    assert MovedBetween(working, buffer, s, t, k, l, i);
  }

  lemma FillFills(working: seq<Slot>, buffer: seq<nat>, s: seq<Slot>, i: nat, count: nat, m: Slot)
    requires |working| == |s| && i < |s| && working[i] == None && s[i] == None
    requires FewestIs(Targets(working, s), buffer, count, m)
    ensures FilledAt(working, buffer, s, s[i := m], i) && if buffer == [] then s[i := m] == s else m.Some? && m.m in buffer
  {
  }

  /** What the counts tell the caller. */
  lemma CountsMean(targets: seq<Slot>, buffer: seq<nat>, minCount: nat, minMessage: Slot, maxCount: nat, maxMessage: Slot)
    requires FewestIs(targets, buffer, minCount, minMessage) && MostIs(targets, buffer, maxCount, maxMessage) && maxCount >= minCount + 2
    ensures minMessage.Some? && minMessage.m in buffer && Load(targets, minMessage.m) == minCount
    ensures maxMessage.Some? && maxMessage.m in buffer && Load(targets, maxMessage.m) == maxCount
    ensures !Even(targets, buffer)
  {
    hide Load;
  }

  /** One step of an allocation: the idle workers are looked at in turn, and after them single workers are moved. */
  ghost predicate AllocationStep(working: seq<Slot>, buffer: seq<nat>, s: seq<Slot>, t: seq<Slot>, j: nat) {
    if j < |working| then FilledAt(working, buffer, s, t, j) else Moves(working, buffer, s, t)
  }

  ghost predicate AllocationSteps(working: seq<Slot>, buffer: seq<nat>, steps: seq<seq<Slot>>) {
    && steps != [] && |steps[0]| == |working|
    && forall j :: 0 <= j < |steps| - 1 ==> AllocationStep(working, buffer, steps[j], steps[j + 1], j)
  }

  /** No two loads are two or more apart. */
  ghost predicate Flat(working: seq<Slot>, buffer: seq<nat>, t: seq<Slot>) {
    |working| == |t| && forall a, b :: a in buffer && b in buffer ==> Load(Targets(working, t), a) <= Load(Targets(working, t), b) + 1
  }

  ghost predicate Leads(working: seq<Slot>, buffer: seq<nat>, s: seq<Slot>, t: seq<Slot>, steps: seq<seq<Slot>>) {
    AllocationSteps(working, buffer, steps) && |steps| > |working| && steps[0] == s && steps[|steps| - 1] == t && Flat(working, buffer, t)
  }

  /** allocate_assignments: its steps lead from s to t. */
  ghost predicate Allocated(working: seq<Slot>, buffer: seq<nat>, s: seq<Slot>, t: seq<Slot>) {
    exists steps :: Leads(working, buffer, s, t, steps)
  }

  lemma StepsStart(working: seq<Slot>, buffer: seq<nat>, s: seq<Slot>)
    requires |s| == |working|
    ensures AllocationSteps(working, buffer, [s])
  {
  }

  lemma StepsMore(working: seq<Slot>, buffer: seq<nat>, steps: seq<seq<Slot>>, t: seq<Slot>)
    requires AllocationSteps(working, buffer, steps) && AllocationStep(working, buffer, steps[|steps| - 1], t, |steps| - 1)
    ensures AllocationSteps(working, buffer, steps + [t])
  {
    hide AllocationStep;
    var more := steps + [t];
    forall j | 0 <= j < |more| - 1 ensures AllocationStep(working, buffer, more[j], more[j + 1], j) {
      if j < |steps| - 1 {
        assert AllocationStep(working, buffer, steps[j], steps[j + 1], j);
      }
    }
  }

  lemma StepOnce(working: seq<Slot>, buffer: seq<nat>, s: seq<Slot>, t: seq<Slot>, t': seq<Slot>, j: nat)
    requires AllocationStep(working, buffer, s, t, j) && AllocationStep(working, buffer, s, t', j)
    ensures t == t'
  {
    if j >= |working| {
      MovedOnce(working, buffer, s, t, t');
    }
  }

  lemma MovedOnce(working: seq<Slot>, buffer: seq<nat>, s: seq<Slot>, t: seq<Slot>, t': seq<Slot>)
    requires Moves(working, buffer, s, t) && Moves(working, buffer, s, t')
    ensures t == t'
  {
    var k: nat, l: nat, i: nat :| MovedBetween(working, buffer, s, t, k, l, i);
    var k': nat, l': nat, i': nat :| MovedBetween(working, buffer, s, t', k', l', i');
    assert k == k' && l == l';
    assert i == i';
  }

  lemma MoveNotFlat(working: seq<Slot>, buffer: seq<nat>, s: seq<Slot>, t: seq<Slot>)
    requires Moves(working, buffer, s, t)
    ensures !Flat(working, buffer, s)
  {
    var k: nat, l: nat, i: nat :| MovedBetween(working, buffer, s, t, k, l, i);
    assert buffer[k] in buffer && buffer[l] in buffer;
  }

  lemma {:induction false} StepsAgree(working: seq<Slot>, buffer: seq<nat>, a: seq<seq<Slot>>, b: seq<seq<Slot>>, n: nat)
    requires AllocationSteps(working, buffer, a) && AllocationSteps(working, buffer, b) && a[0] == b[0]
    requires n < |a| && n < |b|
    ensures a[n] == b[n]
    decreases n
  {
    hide AllocationStep;
    if n > 0 {
      StepsAgree(working, buffer, a, b, n - 1);
      assert AllocationStep(working, buffer, a[n - 1], a[n - 1 + 1], n - 1);
      assert AllocationStep(working, buffer, b[n - 1], b[n - 1 + 1], n - 1);
      StepOnce(working, buffer, a[n - 1], a[n], b[n], n - 1);
    }
  }

  /** The allocation is determined by where the workers are and what is in the buffer. */
  lemma AllocatedOnce(working: seq<Slot>, buffer: seq<nat>, s: seq<Slot>, t: seq<Slot>, t': seq<Slot>)
    requires Allocated(working, buffer, s, t) && Allocated(working, buffer, s, t')
    ensures t == t'
  {
    var a :| Leads(working, buffer, s, t, a);
    var b :| Leads(working, buffer, s, t', b);
    if |a| <= |b| {
      LastAgrees(working, buffer, a, b);
    } else {
      LastAgrees(working, buffer, b, a);
    }
  }

  lemma LastAgrees(working: seq<Slot>, buffer: seq<nat>, a: seq<seq<Slot>>, b: seq<seq<Slot>>)
    requires AllocationSteps(working, buffer, a) && AllocationSteps(working, buffer, b) && a[0] == b[0] && |working| < |a| <= |b|
    requires Flat(working, buffer, a[|a| - 1])
    ensures a[|a| - 1] == b[|b| - 1]
  {
    hide Moves;
    hide FilledAt;
    hide Flat;
    var n := |a| - 1;
    StepsAgree(working, buffer, a, b, n);
    if n < |b| - 1 {
      assert AllocationStep(working, buffer, b[n], b[n + 1], n);
      MoveNotFlat(working, buffer, b[n], b[n + 1]);
    }
  }

  /** The message of worker i is the fullest, and no worker is merely about to start on it. */
  ghost predicate LastResort(working: seq<Slot>, buffer: seq<nat>, s: seq<Slot>, i: nat) {
    && |working| == |s| && i < |s| && s[i] == None
    && exists l: nat :: MostAt(Targets(working, s), buffer, l) && working[i] == Some(buffer[l]) && Some(buffer[l]) !in s
  }

  /** A step that reassigns a worker with a message of its own is such a move. */
  lemma StepDisturbs(working: seq<Slot>, buffer: seq<nat>, s: seq<Slot>, t: seq<Slot>, j: nat, i: nat)
    requires AllocationStep(working, buffer, s, t, j) && |s| == |working| && i < |s| && working[i].Some? && s[i] == None
    ensures |t| == |working| && (t[i] != None ==> LastResort(working, buffer, s, i))
  {
    if j >= |working| {
      var k: nat, l: nat, x: nat :| MovedBetween(working, buffer, s, t, k, l, x);
    }
  }

  /** A worker with a message of its own and no reassignment gets one only as a last resort. */
  lemma WorkingDisturbedLast(working: seq<Slot>, buffer: seq<nat>, s: seq<Slot>, t: seq<Slot>, i: nat)
      returns (steps: seq<seq<Slot>>, n: nat)
    requires Allocated(working, buffer, s, t) && |s| == |t| == |working| && i < |working|
    requires working[i].Some? && s[i] == None && t[i] != None
    ensures Leads(working, buffer, s, t, steps) && n < |steps| - 1
    ensures LastResort(working, buffer, steps[n], i) && |steps[n + 1]| == |working| && steps[n + 1][i] != None
  {
    steps :| Leads(working, buffer, s, t, steps);
    hide AllocationStep;
    hide Flat;
    hide LastResort;
    n := 0;
    while n < |steps| - 1
      invariant n < |steps| && |steps[n]| == |working| && steps[n][i] == None
      decreases |steps| - n
    {
      StepDisturbs(working, buffer, steps[n], steps[n + 1], n, i);
      if steps[n + 1][i] != None {
        return;
      }
      n := n + 1;
    }
  }

  // -------------------------------------------------------------- organiser

  class MasterOrganiser {
    const numWorkers: nat
    var working: seq<Slot>
    var toBeAssigned: seq<Slot>
    var polled: seq<bool>
    var needsRefresh: seq<bool>
    var buffer: seq<nat>

    ghost predicate Valid()
      reads this
    {
      && |working| == |toBeAssigned| == |polled| == |needsRefresh| == numWorkers
      && InBuffer(working, buffer) && InBuffer(toBeAssigned, buffer) && NoDuplicates(buffer)
    }

    constructor (numWorkers: nat)
      ensures Valid() && this.numWorkers == numWorkers && buffer == []
      ensures forall i :: 0 <= i < numWorkers ==> polled[i] && working[i] == None && toBeAssigned[i] == None && !needsRefresh[i]
    {
      this.numWorkers := numWorkers;
      working, toBeAssigned := seq(numWorkers, i => None), seq(numWorkers, i => None);
      polled, needsRefresh := seq(numWorkers, i => true), seq(numWorkers, i => false);
      buffer := [];
    }

    method AddMessage(m: nat)
      requires Valid() && m !in buffer
      modifies `buffer
      ensures Valid() && buffer == old(buffer) + [m]
    {
      buffer := buffer + [m];
    }

    /** remove_message: takes m from every worker and from the buffer, whose last entry moves into the gap. */
    method RemoveMessage(m: nat)
      requires Valid()
      modifies `working, `toBeAssigned, `buffer
      ensures Valid() && RemovedFrom(old(buffer), buffer, m)
      ensures working == Cleared(old(working), m) && toBeAssigned == Cleared(old(toBeAssigned), m)
    {
      ClearSlots(m);
      Compact(m);
      RemovedStays(old(buffer), buffer, m, old(working));
      RemovedStays(old(buffer), buffer, m, old(toBeAssigned));
    }

    method ClearSlots(m: nat)
      requires |working| == |toBeAssigned| == numWorkers
      modifies `working, `toBeAssigned
      ensures working == Cleared(old(working), m) && toBeAssigned == Cleared(old(toBeAssigned), m)
    {
      ghost var working0, toBe0 := working, toBeAssigned;
      for i := 0 to numWorkers
        invariant |working| == |toBeAssigned| == numWorkers
        invariant forall j :: 0 <= j < i ==> working[j] == Cleared(working0, m)[j] && toBeAssigned[j] == Cleared(toBe0, m)[j]
        invariant forall j :: i <= j < numWorkers ==> working[j] == working0[j] && toBeAssigned[j] == toBe0[j]
      {
        if working[i] == Some(m) {
          working := working[i := None];
        }
        if toBeAssigned[i] == Some(m) {
          toBeAssigned := toBeAssigned[i := None];
        }
      }
    }

    /** DisorderedArray::remove on the buffer. */
    method Compact(m: nat)
      requires NoDuplicates(buffer)
      modifies `buffer
      ensures NoDuplicates(buffer) && RemovedFrom(old(buffer), buffer, m)
    {
      var i := 0;
      while i < |buffer|
        invariant 0 <= i <= |buffer| && m !in buffer[..i] && NoDuplicates(buffer)
        invariant buffer == old(buffer) || (m !in buffer && RemovedFrom(old(buffer), buffer, m))
        decreases |buffer| - i
      {
        if buffer[i] == m {
          SwapOutMembers(buffer, i);
          var n := |buffer| - 1;
          buffer := buffer[i := buffer[n]][..n];
        } else {
          i := i + 1;
        }
      }
      assert buffer[..i] == buffer;
    }

    /** get_min_max_count: the first message with the fewest workers and the first with the most; the latter is None if no
        message has a worker. */
    method GetMinMaxCount() returns (minCount: nat, minMessage: Slot, maxCount: nat, maxMessage: Slot)
      requires Valid()
      ensures FewestIs(Targets(working, toBeAssigned), buffer, minCount, minMessage)
      ensures MostIs(Targets(working, toBeAssigned), buffer, maxCount, maxMessage)
    {
      hide FewestIs;
      hide MostIs;
      ghost var targets := Targets(working, toBeAssigned);
      minCount, minMessage, maxCount, maxMessage := numWorkers + 1, None, 0, None;
      CountsStart(targets);
      for i := 0 to |buffer|
        invariant FewestIs(targets, buffer[..i], minCount, minMessage) && MostIs(targets, buffer[..i], maxCount, maxMessage)
      {
        var count := CountWorkers(buffer[i]);
        FewestGoesOn(targets, buffer, i, minCount, minMessage);
        MostGoesOn(targets, buffer, i, maxCount, maxMessage);
        if count < minCount {
          minCount, minMessage := count, Some(buffer[i]);
        }
        if count > maxCount {
          maxCount, maxMessage := count, Some(buffer[i]);
        }
      }
      assert buffer[..|buffer|] == buffer;
    }

    method CountWorkers(m: nat) returns (count: nat)
      requires |working| == |toBeAssigned| == numWorkers
      ensures count == Load(Targets(working, toBeAssigned), m)
    {
      ghost var targets := Targets(working, toBeAssigned);
      count := 0;
      for j := 0 to numWorkers
        invariant count == Load(targets[..j], m)
      {
        assert targets[..j + 1][..j] == targets[..j];
        if toBeAssigned[j] == Some(m) || (toBeAssigned[j] == None && working[j] == Some(m)) {
          count := count + 1;
        }
      }
      assert targets[..numWorkers] == targets;
    }

    /** allocate_assignments: gives every idle worker a message and then moves workers, one at a time, from a message with
        the most to one with the fewest, preferring workers that have not started on it. */
    method AllocateAssignments()
      requires Valid()
      modifies `toBeAssigned
      ensures Valid() && Balanced(Targets(working, toBeAssigned), buffer)
      ensures Allocated(working, buffer, old(toBeAssigned), toBeAssigned)
      ensures buffer == [] || Even(Targets(working, old(toBeAssigned)), buffer) ==> toBeAssigned == old(toBeAssigned)
    {
      hide AllocationSteps;
      hide FewestIs;
      hide MostIs;
      hide FewestAt;
      hide Balanced;
      ghost var steps := [toBeAssigned];
      StepsStart(working, buffer, toBeAssigned);
      for i := 0 to numWorkers
        invariant Valid() && (buffer == [] || Even(Targets(working, old(toBeAssigned)), buffer) ==> toBeAssigned == old(toBeAssigned))
        invariant buffer != [] ==> forall j :: 0 <= j < i ==> working[j].Some? || toBeAssigned[j].Some?
        invariant AllocationSteps(working, buffer, steps) && |steps| == i + 1 && steps[0] == old(toBeAssigned) && steps[i] == toBeAssigned
      {
        if working[i] == None && toBeAssigned[i] == None {
          assert Targets(working, toBeAssigned)[i] == None;
          var minCount, minMessage, _, _ := GetMinMaxCount();
          FillFills(working, buffer, toBeAssigned, i, minCount, minMessage);
          toBeAssigned := toBeAssigned[i := minMessage];
        }
        StepsMore(working, buffer, steps, toBeAssigned);
        steps := steps + [toBeAssigned];
      }
      Rebalance(steps);
    }

    /** The moves that follow the first steps. */
    method Rebalance(ghost first: seq<seq<Slot>>)
      requires Valid() && (buffer != [] ==> forall j :: 0 <= j < numWorkers ==> working[j].Some? || toBeAssigned[j].Some?)
      requires AllocationSteps(working, buffer, first) && |first| > numWorkers && first[|first| - 1] == toBeAssigned
      modifies `toBeAssigned
      ensures Valid() && Balanced(Targets(working, toBeAssigned), buffer)
      ensures Allocated(working, buffer, first[0], toBeAssigned)
      ensures buffer == [] || Even(Targets(working, old(toBeAssigned)), buffer) ==> toBeAssigned == old(toBeAssigned)
    {
      hide AllocationSteps;
      hide FewestIs;
      hide MostIs;
      hide Moves;
      hide Balanced;
      hide Flat;
      hide Even;
      hide TakenFrom;
      ghost var steps := first;
      while true
        invariant Valid() && (buffer != [] ==> forall j :: 0 <= j < numWorkers ==> working[j].Some? || toBeAssigned[j].Some?)
        invariant buffer == [] || Even(Targets(working, old(toBeAssigned)), buffer) ==> toBeAssigned == old(toBeAssigned)
        invariant AllocationSteps(working, buffer, steps) && |steps| > numWorkers && steps[0] == first[0] && steps[|steps| - 1] == toBeAssigned
        decreases SumOfSquares(Targets(working, toBeAssigned), buffer)
      {
        var minCount, minMessage, maxCount, maxMessage := GetMinMaxCount();
        if maxCount < minCount + 2 {
          SettledBalance(working, toBeAssigned, buffer, minCount, minMessage, maxCount, maxMessage);
          assert Leads(working, buffer, first[0], toBeAssigned, steps);
          return;
        }
        CountsMean(Targets(working, toBeAssigned), buffer, minCount, minMessage, maxCount, maxMessage);
        MoveOne(minMessage, maxMessage);
        MoveMoves(working, buffer, steps[|steps| - 1], toBeAssigned, minCount, minMessage, maxCount, maxMessage);
        StepsMore(working, buffer, steps, toBeAssigned);
        steps := steps + [toBeAssigned];
      }
    }

    /** Moves one worker from message maxMessage to message minMessage, if it can one that has not started on it. */
    method MoveOne(minMessage: Slot, maxMessage: Slot)
      requires Valid() && minMessage.Some? && minMessage.m in buffer && maxMessage.Some? && maxMessage.m in buffer
      requires Load(Targets(working, toBeAssigned), maxMessage.m) >= Load(Targets(working, toBeAssigned), minMessage.m) + 2
      modifies `toBeAssigned
      ensures Valid()
      ensures exists i: nat :: TakenFrom(working, old(toBeAssigned), maxMessage.m, i) && toBeAssigned == old(toBeAssigned)[i := minMessage]
      ensures SumOfSquares(Targets(working, toBeAssigned), buffer) < SumOfSquares(Targets(working, old(toBeAssigned)), buffer)
    {
      ghost var targets := Targets(working, toBeAssigned);
      LoadPositive(targets, maxMessage.m);
      ghost var w :| 0 <= w < numWorkers && targets[w] == maxMessage;
      var i := 0;
      while i < numWorkers && toBeAssigned[i] != maxMessage
        invariant 0 <= i <= numWorkers && forall j :: 0 <= j < i ==> toBeAssigned[j] != maxMessage
      {
        i := i + 1;
      }
      if i == numWorkers {
        i := 0;
        while !(working[i] == maxMessage && toBeAssigned[i] == None)
          invariant 0 <= i <= w && forall j :: 0 <= j < i ==> !(working[j] == maxMessage && toBeAssigned[j] == None)
          decreases w - i
        {
          i := i + 1;
        }
      }
      assert TakenFrom(working, toBeAssigned, maxMessage.m, i);
      SquaresMoved(targets, buffer, i, maxMessage.m, minMessage.m);
      toBeAssigned := toBeAssigned[i := minMessage];
      assert Targets(working, toBeAssigned) == targets[i := minMessage];
    }

    /** refresh_except: marks the workers whose message is for the same node as m, given by node. */
    method RefreshExcept(m: nat, worker: nat, node: nat -> nat)
      requires Valid()
      modifies `needsRefresh
      ensures Valid()
      ensures forall i :: 0 <= i < numWorkers ==>
        (needsRefresh[i] <==> old(needsRefresh)[i] || (i != worker && working[i].Some? && node(working[i].m) == node(m)))
    {
      for i := 0 to numWorkers
        invariant |needsRefresh| == numWorkers
        invariant forall j :: 0 <= j < i ==>
          (needsRefresh[j] <==> old(needsRefresh)[j] || (j != worker && working[j].Some? && node(working[j].m) == node(m)))
        invariant forall j :: i <= j < numWorkers ==> needsRefresh[j] == old(needsRefresh)[j]
      {
        if i != worker && working[i].Some? && node(working[i].m) == node(m) {
          needsRefresh := needsRefresh[i := true];
        }
      }
    }
  }

  function Cleared(slots: seq<Slot>, m: nat): (t: seq<Slot>)
    ensures |t| == |slots|
  {
    seq(|slots|, i requires 0 <= i < |slots| => if slots[i] == Some(m) then None else slots[i])
  }

  /** Entry i is overwritten by the last entry and the buffer shortened. */
  function SwapOut(buffer: seq<nat>, i: nat): seq<nat>
    requires i < |buffer|
  {
    buffer[i := buffer[|buffer| - 1]][..|buffer| - 1]
  }

  ghost predicate RemovedFrom(buffer: seq<nat>, buffer': seq<nat>, m: nat) {
    && (m !in buffer ==> buffer' == buffer)
    && (forall i :: 0 <= i < |buffer| && buffer[i] == m ==> buffer' == SwapOut(buffer, i))
  }

  lemma SwapOutMembers(buffer: seq<nat>, i: nat)
    requires i < |buffer| && NoDuplicates(buffer)
    ensures NoDuplicates(SwapOut(buffer, i)) && forall x :: x in SwapOut(buffer, i) <==> x in buffer && x != buffer[i]
    ensures SwapOut(buffer, i)[..i] == buffer[..i]
  {
    var n := |buffer| - 1;
    var b := SwapOut(buffer, i);
    assert forall k :: 0 <= k < n ==> b[k] == buffer[if k == i then n else k];
    forall x | x in buffer && x != buffer[i] ensures x in b {
      var k :| 0 <= k <= n && buffer[k] == x;
      assert b[if k == n then i else k] == x;
    }
  }

  lemma RemovedMembers(buffer: seq<nat>, buffer': seq<nat>, m: nat)
    requires NoDuplicates(buffer) && RemovedFrom(buffer, buffer', m)
    ensures forall x :: x in buffer' <==> x in buffer && x != m
    ensures |buffer'| == if m in buffer then |buffer| - 1 else |buffer|
  {
    if m in buffer {
      var i :| 0 <= i < |buffer| && buffer[i] == m;
      SwapOutMembers(buffer, i);
    }
  }

  lemma RemovedStays(buffer: seq<nat>, buffer': seq<nat>, m: nat, slots: seq<Slot>)
    requires InBuffer(slots, buffer) && NoDuplicates(buffer) && RemovedFrom(buffer, buffer', m)
    ensures InBuffer(Cleared(slots, m), buffer')
  {
    RemovedMembers(buffer, buffer', m);
  }

  lemma {:induction false} LoadAtMost(targets: seq<Slot>, m: nat)
    ensures Load(targets, m) <= |targets|
  {
    if targets != [] {
      LoadAtMost(targets[..|targets| - 1], m);
    }
  }

  lemma SettledBalance(working: seq<Slot>, toBe: seq<Slot>, buffer: seq<nat>, minCount: nat, minMessage: Slot,
                       maxCount: nat, maxMessage: Slot)
    requires |working| == |toBe| && InBuffer(working, buffer) && InBuffer(toBe, buffer) && NoDuplicates(buffer)
    requires buffer != [] ==> forall j :: 0 <= j < |working| ==> working[j].Some? || toBe[j].Some?
    requires FewestIs(Targets(working, toBe), buffer, minCount, minMessage) && MostIs(Targets(working, toBe), buffer, maxCount, maxMessage)
    requires maxCount < minCount + 2
    ensures Balanced(Targets(working, toBe), buffer) && Flat(working, buffer, toBe)
  {
    if buffer != [] {
      var targets := Targets(working, toBe);
      var at: nat :| FewestAt(targets, buffer, at) && minCount == Load(targets, buffer[at]);
      var top: nat := at;
      if maxCount > 0 {
        top :| MostAt(targets, buffer, top) && maxCount == Load(targets, buffer[top]);
      }
      assert forall i :: 0 <= i < |buffer| ==> minCount <= Load(targets, buffer[i]) <= maxCount;
      WithinOne(targets, buffer, minCount, maxCount, at, top);
    }
  }
}
