/** Leaving elements out of a sequence. */
module Sequences {
  import opened Bytes

  /** `a` can be obtained from `b` by leaving out elements. */
  predicate Subsequence<T(==)>(a: seq<T>, b: seq<T>)
    decreases |b|
  {
    a == [] ||
    (b != [] &&
     ((a[|a| - 1] == b[|b| - 1] && Subsequence(a[..|a| - 1], b[..|b| - 1]))
      || Subsequence(a, b[..|b| - 1])))
  }

  lemma SubsequenceGrows<T>(a: seq<T>, b: seq<T>, x: T)
    requires Subsequence(a, b)
    ensures Subsequence(a, b + [x]) && Subsequence(a + [x], b + [x])
  {
    assert (b + [x])[..|b|] == b && (a + [x])[..|a|] == a;
  }

  lemma {:induction false} SubsequenceOfPrefix<T>(a: seq<T>, b: seq<T>, n: nat)
    requires n <= |b| && Subsequence(a, b[..n])
    ensures Subsequence(a, b)
    decreases |b| - n
  {
    if n < |b| {
      assert b[..n + 1] == b[..n] + [b[n]];
      SubsequenceGrows(a, b[..n], b[n]);
      SubsequenceOfPrefix(a, b, n + 1);
    } else {
      assert b[..n] == b;
    }
  }

  lemma {:induction false} SubsequenceTransitive<T>(a: seq<T>, b: seq<T>, c: seq<T>)
    requires Subsequence(a, b) && Subsequence(b, c)
    ensures Subsequence(a, c)
    decreases |c|, |b|
  {
    if a != [] {
      var ai, bi, ci := a[..|a| - 1], b[..|b| - 1], c[..|c| - 1];
      if Subsequence(b, ci) {
        SubsequenceTransitive(a, b, ci);
      } else if Subsequence(a, bi) {
        SubsequenceTransitive(a, bi, ci);
      } else {
        SubsequenceTransitive(ai, bi, ci);
      }
    }
  }

  function Map<T, U>(f: T -> U, s: seq<T>): (r: seq<U>)
    ensures |r| == |s| && forall i :: 0 <= i < |s| ==> r[i] == f(s[i])
  {
    if s == [] then [] else Map(f, s[..|s| - 1]) + [f(s[|s| - 1])]
  }

  lemma {:induction false} SubsequenceMap<T, U>(f: T -> U, a: seq<T>, b: seq<T>)
    requires Subsequence(a, b)
    ensures Subsequence(Map(f, a), Map(f, b))
    decreases |b|
  {
    if a != [] {
      var bi := b[..|b| - 1];
      assert Map(f, b)[..|b| - 1] == Map(f, bi);
      if Subsequence(a, bi) {
        SubsequenceMap(f, a, bi);
      } else {
        SubsequenceMap(f, a[..|a| - 1], bi);
        assert Map(f, a)[..|a| - 1] == Map(f, a[..|a| - 1]);
      }
    }
  }

  /** What is done is in the order of what was asked; the last thing asked may still be undecided. */
  predicate InOrder<T(==)>(done: seq<T>, asked: seq<T>, current: Option<T>) {
    match current
    case None => Subsequence(done, asked)
    case Some(x) => asked != [] && asked[|asked| - 1] == x && Subsequence(done, asked[..|asked| - 1])
  }

  lemma OneArrives<T>(done: seq<T>, asked: seq<T>, x: T)
    requires InOrder(done, asked, None)
    ensures InOrder(done, asked + [x], Some(x))
  {
    assert (asked + [x])[..|asked|] == asked;
  }

  lemma OneIsDecided<T>(done: seq<T>, asked: seq<T>, x: T)
    requires InOrder(done, asked, Some(x))
    ensures InOrder(done, asked, None) && InOrder(done + [x], asked, None)
  {
    var before := asked[..|asked| - 1];
    assert before + [x] == asked;
    SubsequenceGrows(done, before, x);
  }
}
