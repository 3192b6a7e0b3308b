/** The integer formats in which formulas, messages and graphs travel: dagster/Cnf.cpp, dagster/Message.cpp, dagster/Dag.cpp. */
module Wire {
  import opened Ranges

  datatype Option<T> = None | Some(value: T)

  /** What the array holds from index base on starts with w. */
  ghost predicate Holds(data: array<int>, base: nat, w: seq<int>)
    reads data
  {
    base + |w| <= data.Length && data[base..base + |w|] == w
  }

  /** Writing x into a from index from on gives b. */
  ghost predicate Appended(a: seq<int>, b: seq<int>, from: nat, x: seq<int>) {
    from + |x| <= |a| && b == a[..from] + x + a[from + |x|..]
  }

  lemma NoneAppended(a: seq<int>, from: nat)
    requires from <= |a|
    ensures Appended(a, a, from, [])
  {
  }

  lemma Appends(a: seq<int>, b: seq<int>, c: seq<int>, from: nat, x: seq<int>, y: seq<int>)
    requires Appended(a, b, from, x) && Appended(b, c, from + |x|, y)
    ensures Appended(a, c, from, x + y)
  {
    assert b[..from + |x|] == a[..from] + x;
    assert b[from + |x| + |y|..] == a[from + |x| + |y|..];
  }

  /** The size goes into the slot left free for it. */
  lemma Stamped(a: seq<int>, b: seq<int>, c: seq<int>, base: nat, x: seq<int>)
    requires base < |a| == |b| && Appended(a, b, base + 1, x) && c == b[base := |x| + 1]
    ensures Appended(a, c, base, [|x| + 1] + x)
  {
  }

  lemma HoldsAppended(a: seq<int>, data: array<int>, base: nat, x: seq<int>)
    requires Appended(a, data[..], base, x)
    ensures Holds(data, base, x)
  {
  }

  /** output[upto++] = x. */
  method Put(output: array<int>, upto: nat, x: int) returns (next: nat)
    requires upto < output.Length
    modifies output
    ensures next == upto + 1 && Appended(old(output[..]), output[..], upto, [x])
  {
    output[upto] := x;
    next := upto + 1;
  }

  /** The same for each element of s in turn. */
  method PutAll(output: array<int>, upto: nat, s: seq<int>) returns (next: nat)
    requires upto + |s| <= output.Length
    modifies output
    ensures next == upto + |s| && Appended(old(output[..]), output[..], upto, s)
  {
    hide Appended;
    next := upto;
    ghost var a := output[..];
    NoneAppended(a, upto);
    for i := 0 to |s|
      invariant next == upto + i && Appended(a, output[..], upto, s[..i])
    {
      ghost var b := output[..];
      next := Put(output, next, s[i]);
      Appends(a, b, output[..], upto, s[..i], [s[i]]);
      assert s[..i + 1] == s[..i] + [s[i]];
    }
    assert s[..|s|] == s;
  }

  /** The slot before what was written gets the size. */
  method Stamp(output: array<int>, base: nat, upto: nat, ghost a: seq<int>, ghost x: seq<int>) returns (size: nat)
    requires base < output.Length == |a| && Appended(a, output[..], base + 1, x) && upto == base + 1 + |x|
    modifies output
    ensures size == |x| + 1 && Appended(a, output[..], base, [|x| + 1] + x)
  {
    hide Appended;
    ghost var b := output[..];
    output[base] := upto - base;
    size := upto - base;
    Stamped(a, b, output[..], base, x);
  }

  // --------------------------------------------------------------- formulas

  function Lengths(f: seq<seq<int>>): (l: seq<int>)
    ensures |l| == |f| && forall i :: 0 <= i < |f| ==> l[i] == |f[i]|
  {
    seq(|f|, i requires 0 <= i < |f| => |f[i]|)
  }

  /** The clauses, each closed by a zero. */
  function Body(f: seq<seq<int>>): seq<int> {
    if f == [] then [] else Body(f[..|f| - 1]) + f[|f| - 1] + [0]
  }

  function CnfWire(f: seq<seq<int>>): seq<int> {
    [3 + |f| + |Body(f)|, |f|] + Lengths(f) + [0] + Body(f)
  }

  predicate NoZeros(f: seq<seq<int>>) {
    forall i, k :: 0 <= i < |f| && 0 <= k < |f[i]| ==> f[i][k] != 0
  }

  /** The greatest variable. */
  ghost predicate IsMaxVar(f: seq<seq<int>>, vc: int) {
    && (forall i, k :: 0 <= i < |f| && 0 <= k < |f[i]| ==> Abs(f[i][k]) <= vc)
    && (vc == 0 || exists i, k :: 0 <= i < |f| && 0 <= k < |f[i]| && Abs(f[i][k]) == vc)
  }

  function Abs(x: int): int {
    if x < 0 then -x else x
  }

  lemma {:induction false} BodyStart(f: seq<seq<int>>, n: nat)
    requires n < |f|
    ensures |Body(f[..n])| + |f[n]| + 1 <= |Body(f)|
    ensures Body(f)[..|Body(f[..n])| + |f[n]| + 1] == Body(f[..n]) + f[n] + [0]
    decreases |f|
  {
    var m := |f| - 1;
    if n < m {
      BodyStart(f[..m], n);
      assert f[..m][..n] == f[..n];
    }
  }

  lemma NoBody()
    ensures Body([]) == []
  {
  }

  lemma BodyStep(f: seq<seq<int>>, n: nat)
    requires n < |f|
    ensures Body(f[..n + 1]) == Body(f[..n]) + f[n] + [0]
  {
    assert f[..n + 1][..n] == f[..n];
  }

  lemma CnfWireParts(f: seq<seq<int>>)
    ensures |CnfWire(f)| == 3 + |f| + |Body(f)|
    ensures CnfWire(f) == [3 + |f| + |Body(f)|] + ([|f|] + Lengths(f) + [0] + Body(f))
  {
  }

  lemma HoldsAt(data: array<int>, base: nat, w: seq<int>)
    requires Holds(data, base, w)
    ensures base + |w| <= data.Length && forall k :: 0 <= k < |w| ==> data[base + k] == w[k]
  {
    forall k | 0 <= k < |w| ensures data[base + k] == w[k] {
      assert data[base..base + |w|][k] == w[k];
    }
  }

  lemma ReadLength(f: seq<seq<int>>, i: nat)
    requires i < |f|
    ensures |CnfWire(f)| > 2 + i && CnfWire(f)[2 + i] == |f[i]|
  {
    assert CnfWire(f)[2 + i] == Lengths(f)[i];
  }

  lemma ReadBody(f: seq<seq<int>>, d: nat, k: nat)
    requires d < |f| && k <= |f[d]|
    ensures 3 + |f| + |Body(f[..d])| + k < |CnfWire(f)|
    ensures CnfWire(f)[3 + |f| + |Body(f[..d])| + k] == (f[d] + [0])[k]
  {
    BodyStart(f, d);
    var p := |Body(f[..d])|;
    hide Body;
    assert CnfWire(f)[3 + |f| + p + k] == Body(f)[p + k] == Body(f)[..p + |f[d]| + 1][p + k];
  }

  class Cnf {
    var clauses: seq<seq<int>>
    var cc: int
    var cl: seq<int>
    var vc: int

    ghost predicate Valid()
      reads this
    {
      cc == |clauses| && cl == Lengths(clauses) && NoZeros(clauses) && IsMaxVar(clauses, vc)
    }

    /** populate_from_clauses, for clauses that are already split. */
    method PopulateFromClauses()
      requires NoZeros(clauses)
      modifies `cc, `cl, `vc
      ensures Valid()
    {
      hide IsMaxVar;
      cc, cl, vc := |clauses|, [], 0;
      NoneMax();
      for i := 0 to |clauses|
        invariant cc == |clauses| && |cl| == i && forall j :: 0 <= j < i ==> cl[j] == |clauses[j]|
        invariant IsMaxVar(clauses[..i], vc) && vc >= 0
      {
        var length;
        length, vc := ScanClause(clauses[i], vc, clauses[..i]);
        cl := cl + [length];
        assert clauses[..i] + [clauses[i]] == clauses[..i + 1];
      }
      assert clauses[..|clauses|] == clauses;
    }

    /** The inner loop: the length of a clause and the greatest variable so far. */
    static method ScanClause(clause: seq<int>, max: int, ghost done: seq<seq<int>>) returns (length: int, vc: int)
      requires IsMaxVar(done, max) && max >= 0
      ensures length == |clause| && IsMaxVar(done + [clause], vc) && vc >= 0
    {
      hide IsMaxVar;
      vc := max;
      NoMore(done, vc);
      assert clause[..0] == [];
      for j := 0 to |clause|
        invariant IsMaxVar(done + [clause[..j]], vc) && vc >= 0
      {
        MoreMax(done, clause[..j], clause[j], vc);
        assert clause[..j] + [clause[j]] == clause[..j + 1];
        if Abs(clause[j]) > vc {
          vc := Abs(clause[j]);
        }
      }
      length := |clause|;
      assert clause[..|clause|] == clause;
    }

    method GetDehydratedSize() returns (n: int)
      requires Valid()
      ensures n == |CnfWire(clauses)|
    {
      n := 2 + cc + 1;
      for i := 0 to cc
        invariant n == 3 + cc + |Body(clauses[..i])|
      {
        assert clauses[..i + 1][..i] == clauses[..i];
        n := n + cl[i] + 1;
      }
      assert clauses[..cc] == clauses;
    }

    /** dehydrate, into the array from base on. */
    method Dehydrate(output: array<int>, base: nat) returns (size: nat)
      requires Valid() && base + |CnfWire(clauses)| <= output.Length
      modifies output
      ensures size == |CnfWire(clauses)| && Appended(old(output[..]), output[..], base, CnfWire(clauses))
    {
      hide Appended;
      hide CnfWire;
      hide Body;
      hide NoZeros;
      hide IsMaxVar;
      CnfWireParts(clauses);
      ghost var a := output[..];
      var upto := DehydrateLengths(output, base + 1);
      ghost var b, x := output[..], [cc] + cl + [0];
      upto := DehydrateClauses(output, upto);
      Appends(a, b, output[..], base + 1, x, Body(clauses));
      size := Stamp(output, base, upto, a, x + Body(clauses));
    }

    method DehydrateLengths(output: array<int>, start: nat) returns (upto: nat)
      requires Valid() && start + cc + 2 <= output.Length
      modifies output
      ensures upto == start + cc + 2 && Appended(old(output[..]), output[..], start, [cc] + cl + [0])
    {
      hide Appended;
      hide NoZeros;
      hide IsMaxVar;
      ghost var a := output[..];
      upto := Put(output, start, cc);
      ghost var b := output[..];
      upto := PutAll(output, upto, cl);
      Appends(a, b, output[..], start, [cc], cl);
      b := output[..];
      upto := Put(output, upto, 0);
      Appends(a, b, output[..], start, [cc] + cl, [0]);
    }

    /** The loop over the clauses. */
    method DehydrateClauses(output: array<int>, start: nat) returns (upto: nat)
      requires Valid() && start + |Body(clauses)| <= output.Length
      modifies output
      ensures upto == start + |Body(clauses)| && Appended(old(output[..]), output[..], start, Body(clauses))
    {
      hide Appended;
      hide Body;
      upto := start;
      ghost var a := output[..];
      NoneAppended(a, start);
      NoBody();
      for i := 0 to cc
        invariant upto == start + |Body(clauses[..i])| && Appended(a, output[..], start, Body(clauses[..i]))
      {
        BodyStart(clauses, i);
        BodyStep(clauses, i);
        ghost var b := output[..];
        upto := PutAll(output, upto, clauses[i]);
        Appends(a, b, output[..], start, Body(clauses[..i]), clauses[i]);
        b := output[..];
        upto := Put(output, upto, 0);
        Appends(a, b, output[..], start, Body(clauses[..i]) + clauses[i], [0]);
      }
      assert clauses[..cc] == clauses;
    }

    /** hydrate, from the array from base on, which holds the format of the formula f. */
    constructor Hydrate(input: array<int>, base: nat, ghost f: seq<seq<int>>)
      requires NoZeros(f) && Holds(input, base, CnfWire(f))
      ensures Valid() && clauses == f
    {
      clauses, cc, cl, vc := [], 0, [], 0;
      new;
      hide CnfWire;
      hide Body;
      hide Holds;
      CnfWireParts(f);
      HoldsAt(input, base, CnfWire(f));
      assert CnfWire(f)[1] == |f|;
      var upto := base + 1;
      var n := input[upto];
      upto := upto + 1;
      var sizes: seq<int> := [];
      for i := 0 to n
        invariant upto == base + 2 + i && sizes == Lengths(f)[..i] && n == |f|
      {
        ReadLength(f, i);
        sizes := sizes + [input[upto]];
        upto := upto + 1;
      }
      upto := upto + 1;
      var done: seq<seq<int>>, clause: seq<int> := [], [];
      NoBody();
      assert f[..0] == [];
      while |done| < n
        invariant n == |f| == |sizes| && sizes == Lengths(f) && |done| <= n && done == f[..|done|]
        invariant |done| < n ==> clause <= f[|done|] && upto == base + 3 + n + |Body(f[..|done|])| + |clause|
        decreases n - |done|, if |done| < n then |f[|done|]| - |clause| else 0
      {
        ghost var d := |done|;
        ReadBody(f, d, |clause|);
        BodyStep(f, d);
        if input[upto] == 0 {
          assert clause == f[d];
          assert f[..d + 1] == f[..d] + [f[d]];
          done, clause := done + [clause], [];
        } else {
          // the buffer allocated for the clause has room for the literal and the closing zero
          assert |clause| + 1 < sizes[|done|] + 1;
          clause := clause + [input[upto]];
        }
        upto := upto + 1;
      }
      assert f[..n] == f;
      clauses := done;
      PopulateFromClauses();
    }
  }

  lemma NoneMax()
    ensures IsMaxVar([], 0)
  {
  }

  lemma NoMore(done: seq<seq<int>>, vc: int)
    requires IsMaxVar(done, vc)
    ensures IsMaxVar(done + [[]], vc)
  {
    var f := done + [[]];
    assert forall i :: 0 <= i < |done| ==> f[i] == done[i];
    assert f[|done|] == [];
    if vc != 0 {
      var i, k :| 0 <= i < |done| && 0 <= k < |done[i]| && Abs(done[i][k]) == vc;
      assert Abs(f[i][k]) == vc;
    }
  }

  lemma MoreMax(done: seq<seq<int>>, c: seq<int>, x: int, vc: int)
    requires IsMaxVar(done + [c], vc) && vc >= 0
    ensures IsMaxVar(done + [c + [x]], if Abs(x) > vc then Abs(x) else vc)
  {
    var f, g, n := done + [c], done + [c + [x]], |done|;
    assert forall i :: 0 <= i < n ==> f[i] == g[i];
    assert f[n] == c && g[n] == c + [x];
    if Abs(x) > vc {
      assert Abs(g[n][|c|]) == Abs(x);
    } else if vc > 0 {
      var i, k :| 0 <= i < |f| && 0 <= k < |f[i]| && Abs(f[i][k]) == vc;
      assert Abs(g[i][k]) == vc;
    }
  }

  /** A formula written and read back is the same formula. */
  method CnfRoundTrip(c: Cnf) returns (d: Cnf, n: int)
    requires c.Valid()
    ensures d.Valid() && d.clauses == c.clauses && d.cc == c.cc && d.cl == c.cl && n == |CnfWire(c.clauses)|
  {
    hide CnfWire;
    hide Appended;
    n := c.GetDehydratedSize();
    var data := new int[n];
    ghost var a := data[..];
    var size := c.Dehydrate(data, 0);
    HoldsAppended(a, data, 0, CnfWire(c.clauses));
    d := new Cnf.Hydrate(data, 0, c.clauses);
  }

  // ---------------------------------------------------------------- messages

  function MessageWire(to: int, from: int, assignments: seq<int>, extra: Option<seq<seq<int>>>): seq<int> {
    [5 + |assignments| + |ExtraWire(extra)|, to, from, if extra.Some? then 1 else 0, |assignments|] + assignments + ExtraWire(extra)
  }

  class Message {
    var to: int
    var from: int
    var assignments: seq<int>
    var additionalClauses: Cnf?

    ghost predicate Valid()
      reads this, additionalClauses
    {
      additionalClauses != null ==> additionalClauses.Valid()
    }

    ghost function Extra(): (e: Option<seq<seq<int>>>)
      reads this, additionalClauses
    {
      if additionalClauses == null then None else Some(additionalClauses.clauses)
    }

    ghost function Format(): seq<int>
      reads this, additionalClauses
    {
      MessageWire(to, from, assignments, Extra())
    }

    method GetDehydratedSize() returns (n: int)
      requires Valid()
      ensures n == |Format()|
    {
      hide CnfWire;
      if additionalClauses == null {
        return |assignments| + 5;
      }
      var m := additionalClauses.GetDehydratedSize();
      return |assignments| + 5 + m;
    }

    /** dehydrate, into the array from its start. */
    method Dehydrate(data: array<int>) returns (size: int)
      requires Valid() && |Format()| <= data.Length
      modifies data
      ensures size == |Format()| && Appended(old(data[..]), data[..], 0, Format())
    {
      hide CnfWire;
      hide Appended;
      hide NoZeros;
      hide IsMaxVar;
      hide MessageWire;
      ghost var a := data[..];
      MessageShape(to, from, assignments, Extra());
      var upto := DehydrateHead(data);
      ghost var b, x := data[..], Head();
      size := upto;
      if additionalClauses != null {
        var m := additionalClauses.Dehydrate(data, upto);
        Appends(a, b, data[..], 1, x, CnfWire(additionalClauses.clauses));
        b, x := data[..], x + CnfWire(additionalClauses.clauses);
        size := size + m;
      }
      assert x == Head() + ExtraWire(Extra());
      var written := Stamp(data, 0, size, a, x);
    }

    ghost function Head(): seq<int>
      reads this
    {
      [to, from, if additionalClauses != null then 1 else 0, |assignments|] + assignments
    }

    method DehydrateHead(data: array<int>) returns (upto: nat)
      requires |assignments| + 5 <= data.Length
      modifies data
      ensures upto == |assignments| + 5 && Appended(old(data[..]), data[..], 1, Head())
    {
      hide Appended;
      ghost var a := data[..];
      upto := PutAll(data, 1, [to, from, if additionalClauses != null then 1 else 0, |assignments|]);
      ghost var b := data[..];
      upto := PutAll(data, upto, assignments);
      Appends(a, b, data[..], 1, [to, from, if additionalClauses != null then 1 else 0, |assignments|], assignments);
    }

    /** hydrate, from an array that holds a message. */
    constructor Hydrate(data: array<int>, ghost to: int, ghost from: int, ghost assignments: seq<int>, ghost extra: Option<seq<seq<int>>>)
      requires Holds(data, 0, MessageWire(to, from, assignments, extra)) && (extra.Some? ==> NoZeros(extra.value))
      ensures Valid() && this.to == to && this.from == from && this.assignments == assignments && Extra() == extra
    {
      hide CnfWire;
      hide Holds;
      hide NoZeros;
      hide IsMaxVar;
      hide MessageWire;
      MessageReads(to, from, assignments, extra, MessageWire(to, from, assignments, extra));
      HoldsAt(data, 0, MessageWire(to, from, assignments, extra));
      this.to, this.from, additionalClauses := data[1], data[2], null;
      new;
      this.assignments := GetAll(data, 5, data[4]);
      assert this.assignments == assignments;
      if data[3] != 0 {
        HoldsRest(data, MessageWire(to, from, assignments, extra), 5 + |assignments|);
        var c := new Cnf.Hydrate(data, 5 + data[4], extra.value);
        additionalClauses := c;
      }
    }
  }

  function ExtraWire(extra: Option<seq<seq<int>>>): seq<int> {
    if extra.Some? then CnfWire(extra.value) else []
  }

  lemma MessageShape(to: int, from: int, assignments: seq<int>, extra: Option<seq<seq<int>>>)
    ensures |MessageWire(to, from, assignments, extra)| == 5 + |assignments| + |ExtraWire(extra)|
    ensures MessageWire(to, from, assignments, extra)
      == [5 + |assignments| + |ExtraWire(extra)|]
      + ([to, from, if extra.Some? then 1 else 0, |assignments|] + assignments + ExtraWire(extra))
  {
    hide CnfWire;
  }

  lemma MessageReads(to: int, from: int, assignments: seq<int>, extra: Option<seq<seq<int>>>, w: seq<int>)
    requires w == MessageWire(to, from, assignments, extra)
    ensures |w| == 5 + |assignments| + |ExtraWire(extra)|
    ensures w[1] == to && w[2] == from && w[3] == (if extra.Some? then 1 else 0) && w[4] == |assignments|
    ensures forall k :: 0 <= k < |assignments| ==> w[5 + k] == assignments[k]
    ensures w[5 + |assignments|..] == ExtraWire(extra)
  {
    MessageShape(to, from, assignments, extra);
    hide MessageWire;
    hide ExtraWire;
  }

  /** The n numbers in the array from index from on. */
  method GetAll(data: array<int>, from: nat, n: nat) returns (s: seq<int>)
    requires from + n <= data.Length
    ensures |s| == n && forall k :: 0 <= k < n ==> s[k] == data[from + k]
  {
    s := [];
    for i := 0 to n
      invariant |s| == i && forall k :: 0 <= k < i ==> s[k] == data[from + k]
    {
      s := s + [data[from + i]];
    }
  }

  lemma HoldsRest(data: array<int>, w: seq<int>, n: nat)
    requires Holds(data, 0, w) && n <= |w|
    ensures Holds(data, n, w[n..])
  {
    assert data[n..n + |w[n..]|] == data[0..0 + |w|][n..];
  }

  /** A message written and read back is the same message, and the size announced is the size written. */
  method MessageRoundTrip(m: Message) returns (d: Message, announced: int, written: int)
    requires m.Valid()
    ensures d.Valid() && d.to == m.to && d.from == m.from && d.assignments == m.assignments && d.Extra() == m.Extra()
    ensures announced == written == |m.Format()|
  {
    hide MessageWire;
    hide Appended;
    hide NoZeros;
    hide IsMaxVar;
    announced := m.GetDehydratedSize();
    var data := new int[announced];
    ghost var a := data[..];
    written := m.Dehydrate(data);
    HoldsAppended(a, data, 0, m.Format());
    d := new Message.Hydrate(data, m.to, m.from, m.assignments, m.Extra());
  }
}
