/** Sequences that grow at their end. */
module Seqs {

  function Init<T>(s: seq<T>): seq<T>
    requires s != []
  {
    s[..|s| - 1]
  }

  function Last<T>(s: seq<T>): T
    requires s != []
  {
    s[|s| - 1]
  }

  lemma Members<T>(s: seq<T>)
    requires s != []
    ensures Last(s) in s && forall x :: x in s <==> x in Init(s) || x == Last(s)
  {
  }

  lemma Extended<T>(s: seq<T>, x: T)
    ensures Init(s + [x]) == s && Last(s + [x]) == x
  {
  }
}
