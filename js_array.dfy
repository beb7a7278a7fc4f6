/** `Array.prototype.filter`, and what it keeps: an order-preserving selection. */
module JsArray {

  /** `r` is obtained from `s` by dropping elements, keeping the order of the rest. */
  ghost predicate IsSubsequence<T>(r: seq<T>, s: seq<T>)
    decreases |s|
  {
    if r == [] then true
    else if s == [] then false
    else (r[0] == s[0] && IsSubsequence(r[1..], s[1..])) || IsSubsequence(r, s[1..])
  }

  /** `xs.filter(keep)`: the elements that satisfy `keep`, in order. */
  function Filter<T(!new)>(xs: seq<T>, keep: T -> bool): (r: seq<T>)
    ensures |r| <= |xs|
    ensures forall i :: 0 <= i < |r| ==> r[i] in xs && keep(r[i])
    ensures forall i :: 0 <= i < |xs| && keep(xs[i]) ==> xs[i] in r
    ensures IsSubsequence(r, xs)
    ensures forall x :: multiset(r)[x] == if keep(x) then multiset(xs)[x] else 0
  {
    if xs == [] then []
    else
      var rest := Filter(xs[1..], keep);
      assert xs == [xs[0]] + xs[1..];
      FilterCountStep(xs[0], xs[1..], rest, keep);
      if keep(xs[0]) then
        var r := [xs[0]] + rest;
        assert r[1..] == rest;
        r
      else
        rest
  }

  /** One step of `Filter`'s counting argument: putting `a` in front of the input. */
  lemma FilterCountStep<T(!new)>(a: T, tail: seq<T>, rest: seq<T>, keep: T -> bool)
    requires forall x :: multiset(rest)[x] == if keep(x) then multiset(tail)[x] else 0
    ensures forall x :: multiset(if keep(a) then [a] + rest else rest)[x]
                     == if keep(x) then multiset([a] + tail)[x] else 0
  {
    assert multiset([a] + tail) == multiset{a} + multiset(tail);
    assert multiset([a] + rest) == multiset{a} + multiset(rest);
  }

  /** Filtering twice with the same test is filtering once. */
  lemma {:induction false} FilterIdempotent<T(!new)>(xs: seq<T>, keep: T -> bool)
    ensures Filter(Filter(xs, keep), keep) == Filter(xs, keep)
  {
    if xs != [] {
      FilterIdempotent(xs[1..], keep);
      var rest := Filter(xs[1..], keep);
      if keep(xs[0]) {
        assert ([xs[0]] + rest)[1..] == rest;
      }
    }
  }

  /** When every element passes, the filter returns the array unchanged. */
  lemma {:induction false} FilterKeepsAll<T(!new)>(xs: seq<T>, keep: T -> bool)
    requires forall i :: 0 <= i < |xs| ==> keep(xs[i])
    ensures Filter(xs, keep) == xs
  {
    if xs != [] {
      FilterKeepsAll(xs[1..], keep);
      assert xs == [xs[0]] + xs[1..];
    }
  }

  /** Two tests that agree on every element filter the same elements. */
  lemma {:induction false} FilterAgrees<T(!new)>(xs: seq<T>, f: T -> bool, g: T -> bool)
    requires forall i :: 0 <= i < |xs| ==> f(xs[i]) == g(xs[i])
    ensures Filter(xs, f) == Filter(xs, g)
  {
    if xs != [] {
      FilterAgrees(xs[1..], f, g);
    }
  }

  /** Every element of a subsequence is an element of the whole. */
  lemma {:induction false} SubsequenceMembers<T>(r: seq<T>, s: seq<T>, x: T)
    requires IsSubsequence(r, s) && x in r
    ensures x in s
    decreases |s|
  {
    if r[0] == s[0] && IsSubsequence(r[1..], s[1..]) {
      if x != r[0] {
        assert x in r[1..];
        SubsequenceMembers(r[1..], s[1..], x);
      }
    } else {
      SubsequenceMembers(r, s[1..], x);
    }
  }

  /** A relation that holds of every earlier/later pair of `s` holds of every such pair of a subsequence. */
  lemma {:induction false} SubsequenceKeepsPairs<T>(r: seq<T>, s: seq<T>, ok: (T, T) -> bool)
    requires IsSubsequence(r, s)
    requires forall i, j :: 0 <= i < j < |s| ==> ok(s[i], s[j])
    ensures forall i, j :: 0 <= i < j < |r| ==> ok(r[i], r[j])
    decreases |s|
  {
    if r != [] {
      assert forall i, j :: 0 <= i < j < |s[1..]| ==> ok(s[1..][i], s[1..][j]) by {
        forall i, j | 0 <= i < j < |s[1..]| ensures ok(s[1..][i], s[1..][j]) {
          assert ok(s[i + 1], s[j + 1]);
        }
      }
      if r[0] == s[0] && IsSubsequence(r[1..], s[1..]) {
        SubsequenceKeepsPairs(r[1..], s[1..], ok);
        forall i, j | 0 <= i < j < |r| ensures ok(r[i], r[j]) {
          if i == 0 {
            SubsequenceMembers(r[1..], s[1..], r[j]);
            var j' :| 0 <= j' < |s[1..]| && s[1..][j'] == r[j];
            assert ok(s[0], s[j' + 1]);
          } else {
            assert ok(r[1..][i - 1], r[1..][j - 1]);
          }
        }
      } else {
        SubsequenceKeepsPairs(r, s[1..], ok);
      }
    }
  }
}
