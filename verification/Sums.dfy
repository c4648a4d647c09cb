/** Sums of a weight over a sequence, as used to count the calls in some phase. */
module Sums {
  function Sum<T>(s: seq<T>, f: T -> nat): nat {
    if s == [] then 0 else f(s[0]) + Sum(s[1..], f)
  }

  lemma {:induction false} SumUpdate<T>(s: seq<T>, g: nat, p: T, f: T -> nat)
    requires g < |s|
    ensures Sum(s[g := p], f) + f(s[g]) == Sum(s, f) + f(p)
  {
    if g == 0 {
      assert s[0 := p][1..] == s[1..];
    } else {
      SumUpdate(s[1..], g - 1, p, f);
      assert s[g := p][1..] == s[1..][g - 1 := p];
    }
  }

  lemma {:induction false} SumBound<T>(s: seq<T>, f: T -> nat, bound: nat)
    requires forall i :: 0 <= i < |s| ==> f(s[i]) <= bound
    ensures Sum(s, f) <= bound * |s|
  {
    if s != [] {
      assert forall i :: 0 <= i < |s[1..]| ==> s[1..][i] == s[i + 1];
      SumBound(s[1..], f, bound);
      assert bound * |s| == bound + bound * |s[1..]|;
    }
  }

  lemma {:induction false} SumOfOnes<T>(s: seq<T>, f: T -> nat)
    requires forall i :: 0 <= i < |s| ==> f(s[i]) == 1
    ensures Sum(s, f) == |s|
  {
    if s != [] {
      assert forall i :: 0 <= i < |s[1..]| ==> s[1..][i] == s[i + 1];
      SumOfOnes(s[1..], f);
    }
  }

  lemma {:induction false} SubsetSize<T>(a: set<T>, b: set<T>)
    requires a <= b
    ensures |a| <= |b|
  {
    if a != {} {
      var x :| x in a;
      SubsetSize(a - {x}, b - {x});
    }
  }
}
