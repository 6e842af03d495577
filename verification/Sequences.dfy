/** Sequences without repeats. */
module Sequences {

  predicate NoDuplicates<T(==)>(s: seq<T>) {
    forall i, j | 0 <= i < j < |s| :: s[i] != s[j]
  }

  lemma NoDuplicatesConcat<T>(s: seq<T>, t: seq<T>)
    requires NoDuplicates(s) && NoDuplicates(t) && forall x, y | x in s && y in t :: x != y
    ensures NoDuplicates(s + t)
  {
    forall i, j | 0 <= i < j < |s + t| ensures (s + t)[i] != (s + t)[j] {
      if i < |s| <= j {
        assert s[i] in s && t[j - |s|] in t;
      }
    }
  }

  lemma NoDuplicatesSingle<T>(s: seq<T>, x: T)
    requires NoDuplicates(s) && forall y :: y in s <==> y == x
    ensures s == [x]
  {
    assert x in s;
    if 1 < |s| {
      assert s[0] != s[1];
      assert s[0] == x && s[1] == x by { assert s[0] in s && s[1] in s; }
    }
  }

  /** Distinct members of a sequence are no more than its elements. */
  lemma {:induction false} DistinctFit<T>(s: seq<T>, t: seq<T>)
    requires NoDuplicates(s) && forall x <- s :: x in t
    ensures |s| <= |t|
  {
    if s != [] {
      var x := s[|s| - 1];
      assert x in s;
      var i :| 0 <= i < |t| && t[i] == x;
      var s', t' := s[..|s| - 1], t[..i] + t[i + 1..];
      forall y | y in s' ensures y in t' {
        assert y in s;
        var j :| 0 <= j < |t| && t[j] == y;
        assert j != i;
        assert t'[if j < i then j else j - 1] == y;
      }
      DistinctFit(s', t');
    }
  }
}
