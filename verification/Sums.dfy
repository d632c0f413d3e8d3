/** Sums over the workers of a protocol. */
module Sums {

  function Sum<T>(s: seq<T>, f: T -> int): int {
    if s == [] then 0 else Sum(s[..|s| - 1], f) + f(s[|s| - 1])
  }

  lemma {:induction false} SumAppend<T>(s: seq<T>, x: T, f: T -> int)
    ensures Sum(s + [x], f) == Sum(s, f) + f(x)
  {
    assert (s + [x])[..|s|] == s;
  }

  lemma {:induction false} SumHead<T>(s: seq<T>, f: T -> int)
    requires s != []
    ensures Sum(s, f) == f(s[0]) + Sum(s[1..], f)
  {
    if |s| > 1 {
      SumHead(s[..|s| - 1], f);
      assert s[1..][..|s| - 2] == s[..|s| - 1][1..];
    }
  }

  lemma {:induction false} SumUpdate<T>(s: seq<T>, i: nat, x: T, f: T -> int)
    requires i < |s|
    ensures Sum(s[i := x], f) == Sum(s, f) - f(s[i]) + f(x)
  {
    var m := |s| - 1;
    if i == m {
      assert s[i := x][..m] == s[..m];
    } else {
      SumUpdate(s[..m], i, x, f);
      assert s[i := x][..m] == s[..m][i := x];
    }
  }

  /** A sum of zeros and ones is at most the length, and less if one of them is zero. */
  lemma {:induction false} SumBound<T(!new)>(s: seq<T>, f: T -> int)
    requires forall x :: 0 <= f(x) <= 1
    ensures 0 <= Sum(s, f) <= |s|
    ensures (exists i :: 0 <= i < |s| && f(s[i]) == 0) <==> Sum(s, f) < |s|
    ensures (exists i :: 0 <= i < |s| && f(s[i]) == 1) <==> Sum(s, f) > 0
  {
    if s != [] {
      var m := |s| - 1;
      var before := s[..m];
      SumBound(before, f);
      if i :| 0 <= i < |s| && f(s[i]) == 0 { assert i == m || before[i] == s[i]; }
      if i :| 0 <= i < |s| && f(s[i]) == 1 { assert i == m || before[i] == s[i]; }
      if i :| 0 <= i < m && f(before[i]) == 0 { assert f(s[i]) == 0; }
      if i :| 0 <= i < m && f(before[i]) == 1 { assert f(s[i]) == 1; }
      assert f(s[m]) == 0 || f(s[m]) == 1;
    }
  }

  /** A sum never falls below the share of one of its terms, when none is negative. */
  lemma {:induction false} SumNonNegative<T(!new)>(s: seq<T>, f: T -> int)
    requires forall x :: 0 <= f(x)
    ensures 0 <= Sum(s, f)
  {
    if s != [] {
      SumNonNegative(s[..|s| - 1], f);
    }
  }
}
