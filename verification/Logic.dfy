/** Propositional logic shared by every component: literals, clauses, formulas and their models. */
module Logic {

  /** A literal is a non-zero integer: v asserts variable v, -v denies it. */
  function VarOf(l: int): (v: nat)
    ensures v == l || v == -l
  {
    if l > 0 then l else -l
  }

  /** A total assignment, given by the set of the variables it makes true. */
  type Assignment = iset<int>

  ghost predicate Holds(a: Assignment, l: int) {
    if l > 0 then l in a else -l !in a
  }

  ghost predicate Satisfies(a: Assignment, c: seq<int>) {
    exists l :: l in c && Holds(a, l)
  }

  ghost predicate Models(a: Assignment, f: seq<seq<int>>) {
    forall c :: c in f ==> Satisfies(a, c)
  }

  ghost predicate Satisfiable(f: seq<seq<int>>) {
    exists a: Assignment :: Models(a, f)
  }

  predicate NoDuplicates<T(==)>(s: seq<T>) {
    forall i, j :: 0 <= i < j < |s| ==> s[i] != s[j]
  }

  lemma SomeElement<T>(s: set<T>) returns (x: T)
    requires s != {}
    ensures x in s
  {
    x :| x in s;
  }
}
