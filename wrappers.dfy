/** Optional values: a JavaScript field or variable that may be `null`/`undefined`. */
module Wrappers {

  datatype Option<+T> = None | Some(value: T) {

    /** The value, or `default` when absent. */
    function GetOr(default: T): T {
      match this
      case Some(v) => v
      case None => default
    }
  }

  function Min(a: int, b: int): int {
    if a <= b then a else b
  }

  /** `xs.slice(0, n)`: the first `n` elements, or all of them when there are fewer. */
  function Take<T>(xs: seq<T>, n: nat): (r: seq<T>)
    ensures |r| == Min(n, |xs|)
    ensures r <= xs
  {
    if |xs| <= n then xs else xs[..n]
  }

  /** No element occurs twice. */
  predicate NoDuplicates<T(==)>(xs: seq<T>) {
    forall i, j :: 0 <= i < j < |xs| ==> xs[i] != xs[j]
  }

  /** `sub` can be obtained from `xs` by deleting elements, keeping the order of the rest. */
  predicate IsSubsequence<T(==)>(sub: seq<T>, xs: seq<T>)
    decreases |xs|
  {
    if sub == [] then true
    else if xs == [] then false
    else if sub[0] == xs[0] then IsSubsequence(sub[1..], xs[1..])
    else IsSubsequence(sub, xs[1..])
  }

  /** A subsequence of `xs` is a subsequence of `xs` with an element put in front. */
  lemma {:induction false} SubsequenceCons<T>(sub: seq<T>, x: T, xs: seq<T>)
    requires IsSubsequence(sub, xs)
    ensures IsSubsequence(sub, [x] + xs)
    decreases |xs|, 1
  {
    var ys := [x] + xs;
    assert ys[1..] == xs;
    if sub != [] && sub[0] == x {
      SubsequenceDropHead(sub, xs);
    }
  }

  /** Dropping the first element of a subsequence keeps it a subsequence. */
  lemma {:induction false} SubsequenceDropHead<T>(sub: seq<T>, xs: seq<T>)
    requires sub != [] && IsSubsequence(sub, xs)
    ensures IsSubsequence(sub[1..], xs)
    decreases |xs|, 0
  {
    assert xs != [];
    assert xs == [xs[0]] + xs[1..];
    if sub[0] == xs[0] {
      SubsequenceCons(sub[1..], xs[0], xs[1..]);
    } else {
      SubsequenceDropHead(sub, xs[1..]);
      SubsequenceCons(sub[1..], xs[0], xs[1..]);
    }
  }

  /** A concatenation repeats nothing iff neither part does and they share no element. */
  lemma NoDuplicatesAppend<T>(x: seq<T>, y: seq<T>)
    ensures NoDuplicates(x + y) <==>
      NoDuplicates(x) && NoDuplicates(y) && forall e :: e in x ==> e !in y
  {
    var xy := x + y;
    if NoDuplicates(xy) {
      forall i, j | 0 <= i < j < |x| ensures x[i] != x[j] {
        assert x[i] == xy[i] && x[j] == xy[j];
      }
      forall i, j | 0 <= i < j < |y| ensures y[i] != y[j] {
        assert y[i] == xy[|x| + i] && y[j] == xy[|x| + j];
      }
      forall i, j | 0 <= i < |x| && 0 <= j < |y| ensures x[i] != y[j] {
        assert x[i] == xy[i] && y[j] == xy[|x| + j];
      }
    }
    if NoDuplicates(x) && NoDuplicates(y) && forall e :: e in x ==> e !in y {
      forall i, j | 0 <= i < j < |xy| ensures xy[i] != xy[j] {
        if j < |x| {
        } else if i >= |x| {
          assert xy[i] == y[i - |x|] && xy[j] == y[j - |x|];
        } else {
          assert xy[i] == x[i] && xy[j] == y[j - |x|];
          assert x[i] in x;
        }
      }
    }
  }
}
