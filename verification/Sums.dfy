/** Sums of a weight over a sequence, one entry per thread. Thread t is entry t, so a
    statement about all sequences is a statement about any number of threads. */
module Sums {

  ghost function Sum<T>(s: seq<T>, weight: T -> nat): nat {
    if |s| == 0 then 0 else weight(s[0]) + Sum(s[1..], weight)
  }

  /** Changing one entry changes the sum by the difference of the weights. */
  lemma {:induction false} SumUpdate<T>(s: seq<T>, weight: T -> nat, i: nat, x: T)
    requires i < |s|
    ensures Sum(s[i := x], weight) + weight(s[i]) == Sum(s, weight) + weight(x)
  {
    var u := s[i := x];
    if i == 0 {
      assert u[1..] == s[1..];
    } else {
      SumUpdate(s[1..], weight, i - 1, x);
      assert u[1..] == s[1..][i - 1 := x];
    }
  }

  lemma {:induction false} SumAtLeast<T>(s: seq<T>, weight: T -> nat, i: nat)
    requires i < |s|
    ensures Sum(s, weight) >= weight(s[i])
  {
    if i > 0 {
      SumAtLeast(s[1..], weight, i - 1);
    }
  }

  lemma {:induction false} SumAtLeastTwo<T>(s: seq<T>, weight: T -> nat, i: nat, j: nat)
    requires i < |s| && j < |s| && i != j
    ensures Sum(s, weight) >= weight(s[i]) + weight(s[j])
  {
    if i == 0 {
      SumAtLeast(s[1..], weight, j - 1);
    } else if j == 0 {
      SumAtLeast(s[1..], weight, i - 1);
    } else {
      SumAtLeastTwo(s[1..], weight, i - 1, j - 1);
    }
  }

  lemma {:induction false} SumZero<T>(s: seq<T>, weight: T -> nat)
    requires forall i :: 0 <= i < |s| ==> weight(s[i]) == 0
    ensures Sum(s, weight) == 0
  {
    if |s| > 0 {
      SumZero(s[1..], weight);
    }
  }

  lemma {:induction false} SumPositive<T>(s: seq<T>, weight: T -> nat) returns (i: nat)
    requires Sum(s, weight) > 0
    ensures i < |s| && weight(s[i]) > 0
  {
    if weight(s[0]) > 0 {
      i := 0;
    } else {
      var j := SumPositive(s[1..], weight);
      i := j + 1;
    }
  }

  lemma {:induction false} SumLessOrEqual<T>(s: seq<T>, light: T -> nat, heavy: T -> nat)
    requires forall i :: 0 <= i < |s| ==> light(s[i]) <= heavy(s[i])
    ensures Sum(s, light) <= Sum(s, heavy)
  {
    if |s| > 0 {
      SumLessOrEqual(s[1..], light, heavy);
    }
  }
}
