/** dagster/RangeSet.h: a set of integers kept as sorted ranges. */
module Ranges {
  type Buffer = seq<(int, int)>

  /** Ranges are not empty, and between two of them at least one number is missing. */
  predicate Canonical(b: Buffer) {
    && (forall i :: 0 <= i < |b| ==> b[i].0 <= b[i].1)
    && forall i, j :: 0 <= i < j < |b| ==> b[i].1 + 1 < b[j].0
  }

  predicate In(b: Buffer, x: int) {
    exists i :: 0 <= i < |b| && b[i].0 <= x <= b[i].1
  }

  /** The sum of the lengths of the ranges. */
  function Size(b: Buffer): int {
    if b == [] then 0 else b[0].1 - b[0].0 + 1 + Size(b[1..])
  }

  function Interval(lo: int, hi: int): (s: set<int>)
    ensures forall x: int :: x in s <==> lo <= x <= hi
    ensures |s| == if lo <= hi then hi - lo + 1 else 0
    decreases hi - lo + 1
  {
    if lo > hi then {} else Interval(lo, hi - 1) + {hi}
  }

  function Elements(b: Buffer): set<int> {
    if b == [] then {} else Interval(b[0].0, b[0].1) + Elements(b[1..])
  }

  /** The mathematical set is the one of the members, and its cardinality is the size. */
  lemma {:induction false} Cardinality(b: Buffer)
    requires Canonical(b)
    ensures forall x :: x in Elements(b) <==> In(b, x)
    ensures |Elements(b)| == Size(b)
  {
    if b != [] {
      Cardinality(b[1..]);
      forall x ensures x in Elements(b) <==> In(b, x) {
        InFirst(b, x);
      }
      forall x | In(b[1..], x) ensures b[0].1 < x {
        var i :| 0 <= i < |b[1..]| && b[1..][i].0 <= x <= b[1..][i].1;
        assert b[1..][i] == b[i + 1];
      }
      hide In;
      assert Interval(b[0].0, b[0].1) !! Elements(b[1..]);
    }
  }

  lemma InFirst(b: Buffer, x: int)
    requires b != []
    ensures In(b, x) <==> b[0].0 <= x <= b[0].1 || In(b[1..], x)
  {
    if In(b[1..], x) {
      var i :| 0 <= i < |b[1..]| && b[1..][i].0 <= x <= b[1..][i].1;
      assert b[i + 1] == b[1..][i];
    }
    if In(b, x) && !(b[0].0 <= x <= b[0].1) {
      var i :| 0 <= i < |b| && b[i].0 <= x <= b[i].1;
      assert b[1..][i - 1] == b[i];
    }
  }

  /** The buffer is determined by its members, whatever the order in which they came. */
  lemma {:induction false} Unique(b: Buffer, c: Buffer)
    requires Canonical(b) && Canonical(c) && forall x :: In(b, x) <==> In(c, x)
    ensures b == c
  {
    assert b != [] ==> In(b, b[0].0);
    assert c != [] ==> In(c, c[0].0);
    if b != [] && c != [] {
      Least(b, c[0].0);
      Least(c, b[0].0);
      assert b[0].0 == c[0].0;
      FirstEnd(b, c);
      FirstEnd(c, b);
      assert b[0] == c[0];
      forall x ensures In(b[1..], x) <==> In(c[1..], x) {
        RestIn(b, x);
        RestIn(c, x);
      }
      Unique(b[1..], c[1..]);
    }
  }

  lemma Least(b: Buffer, x: int)
    requires Canonical(b) && b != [] && In(b, x)
    ensures b[0].0 <= x
  {
  }

  /** The first range of c does not end before that of b. */
  lemma FirstEnd(b: Buffer, c: Buffer)
    requires Canonical(b) && Canonical(c) && b != [] && c != [] && b[0].0 == c[0].0 && forall x :: In(b, x) <==> In(c, x)
    ensures b[0].1 <= c[0].1
  {
    var x := c[0].1 + 1;
    assert !In(c, x);
    assert !(b[0].0 <= x <= b[0].1);
  }

  lemma RestIn(b: Buffer, x: int)
    requires Canonical(b) && b != []
    ensures In(b[1..], x) <==> In(b, x) && x > b[0].1
  {
    InFirst(b, x);
    if In(b[1..], x) {
      var i :| 0 <= i < |b[1..]| && b[1..][i].0 <= x <= b[1..][i].1;
      assert b[1..][i] == b[i + 1];
    }
  }

  /** The buffer with m added, by a scan from the left. */
  function Added(b: Buffer, m: int): Buffer {
    if b == [] || m < b[0].0 - 1 then [(m, m)] + b
    else if m == b[0].0 - 1 then [(m, b[0].1)] + b[1..]
    else if m <= b[0].1 then b
    else if m > b[0].1 + 1 then [b[0]] + Added(b[1..], m)
    else if |b| > 1 && b[1].0 == m + 1 then [(b[0].0, b[1].1)] + b[2..]
    else [(b[0].0, m)] + b[1..]
  }

  lemma {:induction false} AddedMeaning(b: Buffer, m: int)
    requires Canonical(b)
    ensures Canonical(Added(b, m))
    ensures forall x :: In(Added(b, m), x) <==> In(b, x) || x == m
  {
    var c := Added(b, m);
    if b != [] && m > b[0].1 + 1 {
      AddedMeaning(b[1..], m);
      PrependMeaning(b[0], Added(b[1..], m), b[0].1 + 2);
      forall x ensures In(c, x) <==> In(b, x) || x == m {
        InFirst(b, x);
      }
    } else if b == [] || m < b[0].0 - 1 {
      PrependMeaning((m, m), b, m + 2);
    } else if m == b[0].0 - 1 {
      RestStart(b, 1);
      PrependMeaning((m, b[0].1), b[1..], b[0].1 + 2);
      forall x ensures In(c, x) <==> In(b, x) || x == m {
        InFirst(b, x);
      }
    } else if m == b[0].1 + 1 {
      RestStart(b, 1);
      if |b| > 1 && b[1].0 == m + 1 {
        RestStart(b, 2);
        PrependMeaning((b[0].0, b[1].1), b[2..], b[1].1 + 2);
        forall x ensures In(c, x) <==> In(b, x) || x == m {
          InFirst(b, x);
          InFirst(b[1..], x);
          assert b[1..][1..] == b[2..] && b[0].0 <= b[0].1 && b[1].0 <= b[1].1;
        }
      } else {
        PrependMeaning((b[0].0, m), b[1..], m + 2);
        forall x ensures In(c, x) <==> In(b, x) || x == m {
          InFirst(b, x);
        }
      }
    } else {
      assert In(b, m);
    }
  }

  /** A range in front of ranges that all start at or after from. */
  lemma PrependMeaning(r: (int, int), b: Buffer, from: int)
    requires r.0 <= r.1 && r.1 + 1 < from && Canonical(b) && forall x :: In(b, x) ==> x >= from
    ensures Canonical([r] + b)
    ensures forall x :: In([r] + b, x) <==> r.0 <= x <= r.1 || In(b, x)
  {
    var c := [r] + b;
    forall x ensures In(c, x) <==> r.0 <= x <= r.1 || In(b, x) {
      assert c[1..] == b;
      InFirst(c, x);
    }
    forall i | 0 <= i < |b| ensures b[i].0 >= from {
      assert In(b, b[i].0);
    }
  }

  lemma RestStart(b: Buffer, n: nat)
    requires Canonical(b) && 1 <= n <= |b|
    ensures Canonical(b[n..]) && forall x :: In(b[n..], x) ==> x >= b[n - 1].1 + 2
  {
  }

  function AddedAll(b: Buffer, ms: seq<int>): Buffer {
    if ms == [] then b else Added(AddedAll(b, ms[..|ms| - 1]), ms[|ms| - 1])
  }

  lemma {:induction false} AddedAllMeaning(b: Buffer, ms: seq<int>)
    requires Canonical(b)
    ensures Canonical(AddedAll(b, ms))
    ensures forall x :: In(AddedAll(b, ms), x) <==> In(b, x) || x in ms
  {
    if ms != [] {
      var n := |ms| - 1;
      AddedAllMeaning(b, ms[..n]);
      AddedMeaning(AddedAll(b, ms[..n]), ms[n]);
      assert ms == ms[..n] + [ms[n]];
    }
  }

  /** Insertion order does not matter. */
  lemma OrderIndependent(ms: seq<int>, ns: seq<int>)
    requires forall x :: x in ms <==> x in ns
    ensures AddedAll([], ms) == AddedAll([], ns)
  {
    AddedAllMeaning([], ms);
    AddedAllMeaning([], ns);
    hide In;
    Unique(AddedAll([], ms), AddedAll([], ns));
  }

  /** The members in growing order, as the loops over the ranges produce them. */
  function Listed(b: Buffer): seq<int> {
    if b == [] then [] else Span(b[0].0, b[0].1) + Listed(b[1..])
  }

  function Span(lo: int, hi: int): (s: seq<int>)
    ensures |s| == if lo <= hi then hi - lo + 1 else 0
    ensures forall k :: 0 <= k < |s| ==> s[k] == lo + k
  {
    if lo > hi then [] else seq(hi - lo + 1, k => lo + k)
  }

  lemma {:induction false} ListedMembers(b: Buffer, x: int)
    ensures x in Listed(b) <==> In(b, x)
  {
    if b != [] {
      ListedMembers(b[1..], x);
      InFirst(b, x);
      var s := Span(b[0].0, b[0].1);
      assert b[0].0 <= x <= b[0].1 ==> s[x - b[0].0] == x;
    }
  }

  /** Inserting the listed members into an empty set gives the same buffer. */
  lemma ListedRestores(b: Buffer)
    requires Canonical(b)
    ensures AddedAll([], Listed(b)) == b
  {
    AddedAllMeaning([], Listed(b));
    forall x ensures x in Listed(b) <==> In(b, x) {
      ListedMembers(b, x);
    }
    assert forall x :: !In([], x);
    hide In;
    Unique(AddedAll([], Listed(b)), b);
  }

  lemma InConcat(b: Buffer, c: Buffer, x: int)
    ensures In(b + c, x) <==> In(b, x) || In(c, x)
  {
    if In(b, x) {
      var i :| 0 <= i < |b| && b[i].0 <= x <= b[i].1;
      assert (b + c)[i] == b[i];
    }
    if In(c, x) {
      var i :| 0 <= i < |c| && c[i].0 <= x <= c[i].1;
      assert (b + c)[|b| + i] == c[i];
    }
  }

  /** Replacing the ranges mid by one range for their members and m adds m. */
  lemma Splice(front: Buffer, mid: Buffer, r: (int, int), back: Buffer, m: int)
    requires Canonical(front + mid + back) && r.0 <= r.1 && !In(front + mid + back, m)
    requires forall x :: r.0 <= x <= r.1 <==> In(mid, x) || x == m
    requires (front != [] ==> front[|front| - 1].1 + 1 < r.0) && (back != [] ==> r.1 + 1 < back[0].0)
    ensures front + [r] + back == Added(front + mid + back, m) && Canonical(front + [r] + back)
    ensures Size(front + [r] + back) == Size(front + mid + back) + 1
  {
    var b, c := front + mid + back, front + [r] + back;
    hide In;
    SpliceCanonical(front, mid, r, back);
    forall x ensures In(c, x) <==> In(b, x) || x == m {
      InConcat(front + mid, back, x);
      InConcat(front, mid, x);
      InConcat(front + [r], back, x);
      InConcat(front, [r], x);
      InSingle(r, x);
    }
    hide Canonical;
    SpliceSize(b, c, m);
  }

  lemma SpliceSize(b: Buffer, c: Buffer, m: int)
    requires Canonical(b) && Canonical(c) && !In(b, m) && forall x :: In(c, x) <==> In(b, x) || x == m
    ensures c == Added(b, m) && Size(c) == Size(b) + 1
  {
    hide In;
    hide Canonical;
    hide Added;
    hide Size;
    AddedMeaning(b, m);
    Unique(c, Added(b, m));
    Cardinality(b);
    Cardinality(c);
    hide Elements;
    assert Elements(c) == Elements(b) + {m};
  }

  lemma InSingle(r: (int, int), x: int)
    ensures In([r], x) <==> r.0 <= x <= r.1
  {
    assert [r][0] == r;
  }

  lemma InPair(r: (int, int), s: (int, int), x: int)
    ensures In([r, s], x) <==> r.0 <= x <= r.1 || s.0 <= x <= s.1
  {
    assert [r, s][0] == r && [r, s][1] == s;
  }

  /** What replaces nothing, one range or two. */
  lemma MidNone(m: int)
    ensures forall x: int :: m <= x <= m <==> In([], x) || x == m
  {
  }

  lemma MidSingle(r: (int, int), s: (int, int), m: int)
    requires r.0 <= r.1 && ((m == r.1 + 1 && s == (r.0, m)) || (m == r.0 - 1 && s == (m, r.1)))
    ensures forall x: int :: s.0 <= x <= s.1 <==> In([r], x) || x == m
  {
    forall x: int ensures In([r], x) <==> r.0 <= x <= r.1 {
      InSingle(r, x);
    }
  }

  lemma MidPair(r: (int, int), s: (int, int), m: int)
    requires r.0 <= r.1 && s.0 <= s.1 && m == r.1 + 1 == s.0 - 1
    ensures forall x: int :: r.0 <= x <= s.1 <==> In([r, s], x) || x == m
  {
    forall x: int ensures In([r, s], x) <==> r.0 <= x <= r.1 || s.0 <= x <= s.1 {
      InPair(r, s, x);
    }
  }

  lemma SpliceCanonical(front: Buffer, mid: Buffer, r: (int, int), back: Buffer)
    requires Canonical(front + mid + back) && r.0 <= r.1
    requires (front != [] ==> front[|front| - 1].1 + 1 < r.0) && (back != [] ==> r.1 + 1 < back[0].0)
    ensures Canonical(front + [r] + back)
  {
    CanonicalConcat(front + mid, back);
    CanonicalConcat(front, mid);
    CanonicalConcat(front, [r]);
    assert Canonical([r]);
    CanonicalConcat(front + [r], back);
    hide Canonical;
    hide Abuts;
    AbutsSingle(front, r, back);
  }

  /** b ends at least two before c starts. */
  predicate Abuts(b: Buffer, c: Buffer)
    requires b != [] && c != []
  {
    b[|b| - 1].1 + 1 < c[0].0
  }

  lemma AbutsSingle(front: Buffer, r: (int, int), back: Buffer)
    ensures back != [] ==> (Abuts(front + [r], back) <==> r.1 + 1 < back[0].0)
    ensures front != [] ==> (Abuts(front, [r]) <==> front[|front| - 1].1 + 1 < r.0)
  {
  }

  lemma CanonicalConcat(b: Buffer, c: Buffer)
    ensures Canonical(b + c) <==> Canonical(b) && Canonical(c) && (b != [] && c != [] ==> Abuts(b, c))
  {
    var d, n := b + c, |b|;
    assert forall i :: 0 <= i < n ==> d[i] == b[i];
    assert forall i :: 0 <= i < |c| ==> d[n + i] == c[i];
    if Canonical(b) && Canonical(c) && (b != [] && c != [] ==> Abuts(b, c)) {
      ConcatCanonical(b, c);
    }
    if Canonical(d) {
      forall i, j | 0 <= i < j < |c| ensures c[i].1 + 1 < c[j].0 {
        assert d[n + i] == c[i] && d[n + j] == c[j];
      }
    }
  }

  lemma ConcatCanonical(b: Buffer, c: Buffer)
    requires Canonical(b) && Canonical(c) && (b != [] && c != [] ==> Abuts(b, c))
    ensures Canonical(b + c)
  {
    var d, n := b + c, |b|;
    forall i | 0 <= i < |d| ensures d[i].0 <= d[i].1 {
      assert i >= n ==> d[i] == c[i - n];
    }
    forall i, j | 0 <= i < j < |d| ensures d[i].1 + 1 < d[j].0 {
      if i >= n {
        assert d[i] == c[i - n] && d[j] == c[j - n];
      } else if j >= n {
        assert d[j] == c[j - n] && c[0].0 <= c[j - n].0;
        assert d[i] == b[i] && b[i].1 <= b[n - 1].1;
      }
    }
  }

  lemma InAt(b: Buffer, i: nat, x: int)
    requires i < |b| && b[i].0 <= x <= b[i].1
    ensures In(b, x)
  {
  }

  lemma Present(b: Buffer, m: int)
    requires Canonical(b) && In(b, m)
    ensures Added(b, m) == b
  {
    AddedMeaning(b, m);
    Unique(Added(b, m), b);
  }

  lemma BeforeAll(b: Buffer, m: int)
    requires Canonical(b) && (b != [] ==> m < b[0].0)
    ensures !In(b, m)
  {
  }

  /** Ways to see a buffer as a front, a middle and a back. */
  lemma CutFirst<T>(b: seq<T>, r: T)
    ensures b == [] + [] + b && [r] + b == [] + [r] + b
    ensures b != [] ==> b == [] + [b[0]] + b[1..] && b[0 := r] == [] + [r] + b[1..]
  {
  }

  lemma CutLast<T>(b: seq<T>, r: T)
    ensures b == b + [] + [] && b + [r] == b + [r] + []
    ensures b != [] ==> b == b[..|b| - 1] + [b[|b| - 1]] + [] && b[|b| - 1 := r] == b[..|b| - 1] + [r] + []
  {
  }

  lemma CutPair<T>(b: seq<T>, n: nat, r: T)
    requires n + 1 < |b|
    ensures b == b[..n] + [b[n], b[n + 1]] + b[n + 2..]
    ensures b[n := r][..n + 1] + b[n := r][n + 2..] == b[..n] + [r] + b[n + 2..]
  {
  }

  lemma CutOne<T>(b: seq<T>, n: nat, r: T)
    requires n < |b|
    ensures b == b[..n] + [b[n]] + b[n + 1..] && b[n := r] == b[..n] + [r] + b[n + 1..]
  {
  }

  lemma CutNone<T>(b: seq<T>, n: nat)
    requires n <= |b|
    ensures b == b[..n] + [] + b[n..]
  {
  }

  lemma Neighbours(b: Buffer, n: nat)
    requires Canonical(b) && n < |b|
    ensures b[n].0 <= b[n].1
    ensures n > 0 ==> b[n - 1].1 + 1 < b[n].0
    ensures n + 1 < |b| ==> b[n].1 + 1 < b[n + 1].0
  {
  }

  lemma AfterAll(b: Buffer, m: int)
    requires Canonical(b) && b != [] && m > b[|b| - 1].1
    ensures !In(b, m)
  {
  }

  lemma Between(b: Buffer, m: int, left: nat)
    requires Canonical(b) && left + 1 < |b| && b[left].1 < m < b[left + 1].0
    ensures !In(b, m)
  {
    forall i | 0 <= i < |b| ensures !(b[i].0 <= m <= b[i].1) {
      if i < left {
        assert b[i].1 + 1 < b[left].0;
      } else if i > left + 1 {
        assert b[left + 1].1 + 1 < b[i].0;
      }
    }
  }

  class RangeSet {
    var buffer: Buffer
    var bufferSize: int
    var dataSize: int

    predicate Valid()
      reads this
    {
      Canonical(buffer) && bufferSize == |buffer| && dataSize == Size(buffer)
    }

    constructor ()
      ensures Valid() && buffer == []
    {
      buffer, bufferSize, dataSize := [], 0, 0;
    }

    /** find: membership, by binary search. */
    method Find(m: int) returns (r: bool)
      requires Valid()
      ensures r <==> In(buffer, m)
    {
      if bufferSize == 0 || m < buffer[0].0 || m > buffer[bufferSize - 1].1 {
        return false;
      }
      if m <= buffer[0].1 || m >= buffer[bufferSize - 1].0 {
        return true;
      }
      var left, right := 0, bufferSize - 1;
      while left + 1 < right
        invariant 0 <= left < right < bufferSize && buffer[left].1 < m < buffer[right].0
      {
        var middle := (left + right) / 2;
        if m <= buffer[middle].1 {
          if m >= buffer[middle].0 {
            return true;
          }
          right := middle;
        } else {
          left := middle;
        }
      }
      return false;
    }

    /** The part of add for a number before the first range or in an empty buffer. */
    method AddAtStart(m: int)
      requires Valid() && (buffer != [] ==> m < buffer[0].0)
      modifies this
      ensures Valid() && buffer == Added(old(buffer), m) && !In(old(buffer), m) && dataSize == old(dataSize) + 1
    {
      hide Added;
      hide Size;
      hide In;
      hide Canonical;
      ghost var b := buffer;
      BeforeAll(b, m);
      MidNone(m);
      CutFirst(b, (m, m));
      if bufferSize > 0 {
        Neighbours(b, 0);
        if m == buffer[0].0 - 1 {
          MidSingle(b[0], (m, b[0].1), m);
          CutFirst(b, (m, b[0].1));
          Splice([], [b[0]], (m, b[0].1), b[1..], m);
          buffer := buffer[0 := (buffer[0].0 - 1, buffer[0].1)];
          dataSize := dataSize + 1;
          return;
        }
      }
      Splice([], [], (m, m), b, m);
      buffer, bufferSize, dataSize := [(m, m)] + buffer, bufferSize + 1, dataSize + 1;
    }

    /** The part of add for a number beyond the last range. */
    method AddAtEnd(m: int)
      requires Valid() && buffer != [] && m > buffer[bufferSize - 1].1
      modifies this
      ensures Valid() && buffer == Added(old(buffer), m) && !In(old(buffer), m) && dataSize == old(dataSize) + 1
    {
      hide Added;
      hide Size;
      hide In;
      hide Canonical;
      ghost var b, n := buffer, bufferSize - 1;
      AfterAll(b, m);
      Neighbours(b, n);
      if m == buffer[bufferSize - 1].1 + 1 {
        MidSingle(b[n], (b[n].0, m), m);
        CutLast(b, (b[n].0, m));
        Splice(b[..n], [b[n]], (b[n].0, m), [], m);
        buffer := buffer[bufferSize - 1 := (buffer[bufferSize - 1].0, buffer[bufferSize - 1].1 + 1)];
      } else {
        MidNone(m);
        CutLast(b, (m, m));
        Splice(b, [], (m, m), [], m);
        buffer, bufferSize := buffer + [(m, m)], bufferSize + 1;
      }
      dataSize := dataSize + 1;
    }

    /** The part of add for a number between two neighbouring ranges: join them, extend one or put a range between. */
    method AddBetween(m: int, left: int, right: int)
      requires Valid() && 0 <= left && right == left + 1 < bufferSize && buffer[left].1 < m < buffer[right].0
      modifies this
      ensures Valid() && buffer == Added(old(buffer), m) && !In(old(buffer), m) && dataSize == old(dataSize) + 1
    {
      hide Added;
      hide Size;
      hide In;
      hide Canonical;
      ghost var b, l, r := buffer, buffer[left], buffer[right];
      Between(b, m, left);
      Neighbours(b, left);
      Neighbours(b, right);
      if m == buffer[left].1 + 1 {
        if m == buffer[right].0 - 1 {
          MidPair(l, r, m);
          CutPair(b, left, (l.0, r.1));
          Splice(b[..left], [l, r], (l.0, r.1), b[left + 2..], m);
          buffer := buffer[left := (buffer[left].0, buffer[right].1)];
          buffer, bufferSize := buffer[..right] + buffer[right + 1..], bufferSize - 1;
        } else {
          MidSingle(l, (l.0, m), m);
          CutOne(b, left, (l.0, m));
          Splice(b[..left], [l], (l.0, m), b[left + 1..], m);
          buffer := buffer[left := (buffer[left].0, buffer[left].1 + 1)];
        }
      } else {
        if m == buffer[right].0 - 1 {
          MidSingle(r, (m, r.1), m);
          CutOne(b, right, (m, r.1));
          Splice(b[..right], [r], (m, r.1), b[right + 1..], m);
          buffer := buffer[right := (buffer[right].0 - 1, buffer[right].1)];
        } else {
          MidNone(m);
          CutNone(b, right);
          Splice(b[..right], [], (m, m), b[right..], m);
          buffer, bufferSize := buffer[..right] + [(m, m)] + buffer[right..], bufferSize + 1;
        }
      }
      dataSize := dataSize + 1;
    }

    /** add: the buffer becomes the one the scan from the left gives. */
    method Add(m: int)
      requires Valid()
      modifies this
      ensures Valid() && buffer == Added(old(buffer), m)
      ensures dataSize == old(dataSize) + if In(old(buffer), m) then 0 else 1
    {
      hide Added;
      hide Size;
      hide In;
      hide Canonical;
      if bufferSize == 0 || m < buffer[0].0 {
        AddAtStart(m);
        return;
      }
      if m > buffer[bufferSize - 1].1 {
        AddAtEnd(m);
        return;
      }
      if m <= buffer[0].1 || m >= buffer[bufferSize - 1].0 {
        InAt(buffer, if m <= buffer[0].1 then 0 else bufferSize - 1, m);
        Present(buffer, m);
        return;
      }
      var left, right := 0, bufferSize - 1;
      while left + 1 < right
        invariant 0 <= left < right < bufferSize && buffer[left].1 < m < buffer[right].0
        invariant Valid() && buffer == old(buffer) && dataSize == old(dataSize)
      {
        var middle := (left + right) / 2;
        if m <= buffer[middle].1 {
          if m >= buffer[middle].0 {
            InAt(buffer, middle, m);
            Present(buffer, m);
            return;
          }
          right := middle;
        } else {
          left := middle;
        }
      }
      AddBetween(m, left, right);
    }
  }
}
