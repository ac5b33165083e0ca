/** Sums over the program counters of any number of threads. */
module Threads {

  function Sum<T>(s: seq<T>, f: T -> nat): nat {
    if s == [] then 0 else Sum(s[..|s| - 1], f) + f(s[|s| - 1])
  }

  /** One thread takes a step. */
  lemma {:induction false} SumUpdate<T>(s: seq<T>, i: nat, x: T, f: T -> nat)
    requires i < |s|
    ensures Sum(s[i := x], f) + f(s[i]) == Sum(s, f) + f(x)
    ensures f(s[i]) <= Sum(s, f)
  {
    var n := |s| - 1;
    if i < n {
      SumUpdate(s[..n], i, x, f);
      assert s[i := x][..n] == s[..n][i := x];
    } else {
      assert s[i := x][..n] == s[..n];
    }
  }

  lemma {:induction false} SumAtMost<T>(s: seq<T>, f: T -> nat, g: T -> nat)
    requires forall x :: f(x) <= g(x)
    ensures Sum(s, f) <= Sum(s, g)
  {
    if s != [] {
      SumAtMost(s[..|s| - 1], f, g);
    }
  }

  /** Nothing weighs anything exactly if every thread weighs nothing. */
  lemma {:induction false} SumZero<T>(s: seq<T>, f: T -> nat)
    ensures Sum(s, f) == 0 <==> forall x :: x in s ==> f(x) == 0
  {
    if s != [] {
      SumZero(s[..|s| - 1], f);
      assert s == s[..|s| - 1] + [s[|s| - 1]];
    }
  }

  /** The holder of a mutex, if it is locked. */
  datatype Owner = Free | Held(holder: nat)
}
