/** Order-preserving selection over sequences: the shape of every Python
    list comprehension `[x for x in xs if p(x)]` in the pipeline. */
module Seqs {

  /** Number of elements of `s` that satisfy `p`. */
  function Count<T>(p: T -> bool, s: seq<T>): nat
    decreases |s|
  {
    if |s| == 0 then 0 else (if p(s[0]) then 1 else 0) + Count(p, s[1..])
  }

  /** `t` can be obtained from `s` by deleting elements, without reordering. */
  predicate IsSubsequence<T(==)>(t: seq<T>, s: seq<T>)
    decreases |s|
  {
    if |t| == 0 then true
    else if |s| == 0 then false
    else (t[0] == s[0] && IsSubsequence(t[1..], s[1..])) || IsSubsequence(t, s[1..])
  }

  /** The elements of `s` that satisfy `p`, in their original order. */
  function Filter<T(==,!new)>(p: T -> bool, s: seq<T>): (r: seq<T>)
    ensures |r| == Count(p, s)
    ensures IsSubsequence(r, s)
    ensures forall x :: x in r <==> x in s && p(x)
    decreases |s|
  {
    if |s| == 0 then []
    else if p(s[0]) then [s[0]] + Filter(p, s[1..])
    else Filter(p, s[1..])
  }

  /** Appending an element appends it to the selection exactly when it
      passes: the result of the loop that tests and appends one element at
      a time. */
  lemma {:induction false} FilterAppend<T(!new)>(p: T -> bool, s: seq<T>, x: T)
    ensures Filter(p, s + [x]) == Filter(p, s) + (if p(x) then [x] else [])
    decreases |s|
  {
    if |s| == 0 {
      assert s + [x] == [x];
    } else {
      assert (s + [x])[1..] == s[1..] + [x];
      assert (s + [x])[0] == s[0];
      FilterAppend(p, s[1..], x);
    }
  }

  /** Applies `f` to every element, keeping order and length. */
  function Map<A, B>(f: A -> B, s: seq<A>): (r: seq<B>)
    ensures |r| == |s|
    ensures forall i :: 0 <= i < |s| ==> r[i] == f(s[i])
  {
    seq(|s|, i requires 0 <= i < |s| => f(s[i]))
  }

  /** A subsequence made only of `p`-elements has at most `Count(p, s)` of them. */
  lemma {:induction false} SubsequenceCountBound<T>(p: T -> bool, t: seq<T>, s: seq<T>)
    requires IsSubsequence(t, s)
    requires forall i :: 0 <= i < |t| ==> p(t[i])
    ensures |t| <= Count(p, s)
    decreases |s|
  {
    if |t| == 0 {
    } else if t[0] == s[0] && IsSubsequence(t[1..], s[1..]) {
      SubsequenceCountBound(p, t[1..], s[1..]);
    } else {
      SubsequenceCountBound(p, t, s[1..]);
    }
  }

  /** `Filter` is the only subsequence that keeps exactly the `p`-elements:
      any subsequence of `s` whose elements all satisfy `p` and that has as
      many elements as `s` has `p`-elements is `Filter(p, s)`. */
  lemma {:induction false} FilterUnique<T(!new)>(p: T -> bool, t: seq<T>, s: seq<T>)
    requires IsSubsequence(t, s)
    requires forall i :: 0 <= i < |t| ==> p(t[i])
    requires |t| == Count(p, s)
    ensures t == Filter(p, s)
    decreases |s|
  {
    if |s| == 0 || |t| == 0 {
    } else if p(s[0]) {
      if t[0] == s[0] && IsSubsequence(t[1..], s[1..]) {
        FilterUnique(p, t[1..], s[1..]);
      } else {
        SubsequenceCountBound(p, t, s[1..]);
        assert false;
      }
    } else {
      FilterUnique(p, t, s[1..]);
    }
  }

  /** The first element `Filter` keeps is the earliest `p`-element of `s`. */
  lemma {:induction false} FilterHeadIsFirst<T(!new)>(p: T -> bool, s: seq<T>)
    requires |Filter(p, s)| > 0
    ensures exists k :: 0 <= k < |s| && s[k] == Filter(p, s)[0] && p(s[k])
                        && forall j :: 0 <= j < k ==> !p(s[j])
    decreases |s|
  {
    if p(s[0]) {
      assert s[0] == Filter(p, s)[0];
    } else {
      FilterHeadIsFirst(p, s[1..]);
      var k :| 0 <= k < |s[1..]| && s[1..][k] == Filter(p, s[1..])[0] && p(s[1..][k])
               && forall j :: 0 <= j < k ==> !p(s[1..][j]);
      assert s[k + 1] == Filter(p, s)[0];
      forall j | 0 <= j < k + 1 ensures !p(s[j]) {
        if j > 0 { assert s[j] == s[1..][j - 1]; }
      }
    }
  }
}
