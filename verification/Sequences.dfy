/** Facts about sequences that several modules share. */
module Sequences {
  predicate NoDuplicates<T(==)>(xs: seq<T>) {
    forall i, j :: 0 <= i < j < |xs| ==> xs[i] != xs[j]
  }

  /** Some occurrence of `a` comes before one of `b`. */
  predicate Precedes<T(==)>(xs: seq<T>, a: T, b: T) {
    exists i, j :: 0 <= i < j < |xs| && xs[i] == a && xs[j] == b
  }

  lemma PrecedesInFront<T>(x: T, xs: seq<T>, a: T, b: T)
    requires (x == a && b in xs) || Precedes(xs, a, b)
    ensures Precedes([x] + xs, a, b)
  {
    var longer := [x] + xs;
    assert forall i :: 0 <= i < |xs| ==> longer[i + 1] == xs[i];
    if Precedes(xs, a, b) {
      var i, j :| 0 <= i < j < |xs| && xs[i] == a && xs[j] == b;
      assert longer[i + 1] == a && longer[j + 1] == b;
    } else {
      var j :| 0 <= j < |xs| && xs[j] == b;
      assert longer[0] == a && longer[j + 1] == b;
    }
  }

  lemma PrecedesInTail<T>(xs: seq<T>, a: T, b: T)
    requires Precedes(xs, a, b)
    ensures (xs[0] == a && b in xs[1..]) || Precedes(xs[1..], a, b)
  {
    var i, j :| 0 <= i < j < |xs| && xs[i] == a && xs[j] == b;
    assert xs[1..][j - 1] == b;
    if i > 0 { assert xs[1..][i - 1] == a; }
  }
}
