/** Concatenation and slices of sequences. */
module Sequences {

  lemma Cons<T>(h: T, t: seq<T>)
    ensures ([h] + t)[0] == h && ([h] + t)[1..] == t
  {
  }

  lemma Assoc<T>(a: seq<T>, b: seq<T>, c: seq<T>)
    ensures a + (b + c) == a + b + c
  {
  }

  lemma Unsnoc<T>(a: seq<T>, b: seq<T>)
    requires b != []
    ensures b == b[..|b| - 1] + [b[|b| - 1]] && a + b == a + b[..|b| - 1] + [b[|b| - 1]]
  {
  }

  lemma ConsSplit<T>(h: T, t: seq<T>, k: nat)
    requires 0 < k <= |t| + 1
    ensures ([h] + t)[..k] == [h] + t[..k - 1] && ([h] + t)[k..] == t[k - 1..]
  {
  }
}
