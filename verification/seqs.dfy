/** Small facts about sequence concatenation and indexing, stated once and
    called where a proof needs them. */
module Seqs {
  lemma AppendAssoc<T>(a: seq<T>, b: seq<T>, c: seq<T>)
    ensures (a + b) + c == a + (b + c)
  {
  }

  lemma AppendEmpty<T>(xs: seq<T>)
    ensures xs + [] == xs
  {
  }

  lemma PrependEmpty<T>(xs: seq<T>)
    ensures [] + xs == xs
  {
  }

  lemma FirstOfAppend<T>(a: seq<T>, b: seq<T>)
    requires a != []
    ensures (a + b)[0] == a[0]
  {
  }

  lemma LastOfAppend<T>(a: seq<T>, b: seq<T>)
    requires b != []
    ensures (a + b)[|a + b| - 1] == b[|b| - 1]
  {
  }

  lemma ConsSplit<T>(xs: seq<T>, more: seq<T>)
    requires xs != []
    ensures (xs + more)[0] == xs[0] && (xs + more)[1..] == xs[1..] + more
  {
  }

  lemma Single<T>(x: T)
    ensures [x][1..] == [] && [x][0] == x
  {
  }

  lemma IndexMiddle<T>(a: seq<T>, b: seq<T>, c: seq<T>, k: nat)
    requires k < |b|
    ensures |a| + k < |a + b + c| && (a + b + c)[|a| + k] == b[k]
  {
  }

  /** `a` is what is left of `b` after some leading entries are taken. */
  predicate SuffixOf<T(==)>(a: seq<T>, b: seq<T>) {
    |a| <= |b| && a == b[|b| - |a|..]
  }

  /** `a` is `b` with some entries left out, the rest kept in order. */
  predicate SubsequenceOf<T(==)>(a: seq<T>, b: seq<T>)
    decreases |b|
  {
    if b == [] then a == []
    else SubsequenceOf(a, b[1..]) || (a != [] && a[0] == b[0] && SubsequenceOf(a[1..], b[1..]))
  }

  lemma {:induction false} EmptySubsequence<T>(b: seq<T>)
    ensures SubsequenceOf([], b)
    decreases |b|
  {
    if b != [] {
      EmptySubsequence(b[1..]);
    }
  }
}
