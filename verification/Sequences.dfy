/** Regrouping of concatenations, which the solver does not do on its own. */
module Sequences {

  lemma Assoc<T>(a: seq<T>, b: seq<T>, c: seq<T>)
    ensures (a + b) + c == a + (b + c)
  {
  }

  lemma Regroup<T>(acc: seq<T>, x: T, rest: seq<T>)
    ensures acc + ([x] + rest) == (acc + [x]) + rest
  {
  }

  function Last<T>(a: seq<T>): T
    requires a != []
  {
    a[|a| - 1]
  }

  lemma FrontAndLast<T>(a: seq<T>)
    requires a != []
    ensures a == a[..|a| - 1] + [Last(a)]
  {
  }

  lemma PrefixOfPrefix<T>(a: seq<T>, n: nat, m: nat)
    requires m <= n <= |a|
    ensures a[..n][..m] == a[..m]
  {
  }

  lemma FullPrefix<T>(a: seq<T>)
    ensures a[..|a|] == a
  {
  }

  lemma LastOfJoin<T>(a: seq<T>, b: seq<T>)
    requires b != []
    ensures a + b != [] && Last(a + b) == Last(b)
  {
  }

  lemma TailOfJoin<T>(a: seq<T>, b: seq<T>)
    requires a != []
    ensures (a + b)[0] == a[0] && (a + b)[1..] == a[1..] + b
  {
  }

  lemma TailOfCons<T>(x: T, rest: seq<T>)
    ensures ([x] + rest)[0] == x && ([x] + rest)[1..] == rest
  {
  }
}
