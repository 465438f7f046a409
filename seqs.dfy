/**
 * The list operations the app builds on: `Array.prototype.filter`, the
 * spread-append of page after page, and what "keeps order" means.
 */
module Seqs {

  /** `s.filter(keep)`: the elements of `s` that satisfy `keep`, in their order. */
  function Filter<T(==)>(s: seq<T>, keep: T -> bool): (r: seq<T>)
    ensures |r| <= |s|
    ensures forall k :: 0 <= k < |r| ==> r[k] in s && keep(r[k])
    ensures forall k :: 0 <= k < |s| && keep(s[k]) ==> s[k] in r
    decreases |s|
  {
    if s == [] then []
    else (if keep(s[0]) then [s[0]] else []) + Filter(s[1..], keep)
  }

  /** `r` is obtained from `s` by deleting elements: it takes only elements of `s` and keeps their order. */
  predicate IsSubsequence<T(==)>(r: seq<T>, s: seq<T>)
    decreases |s|
  {
    if r == [] then true
    else if s == [] then false
    else (r[0] == s[0] && IsSubsequence(r[1..], s[1..])) || IsSubsequence(r, s[1..])
  }

  /** `[...pages[0], ...pages[1], ...]`. */
  function Flatten<T>(pages: seq<seq<T>>): (r: seq<T>)
    decreases |pages|
  {
    if pages == [] then [] else pages[0] + Flatten(pages[1..])
  }

  lemma {:induction false} FilterIsSubsequence<T>(s: seq<T>, keep: T -> bool)
    ensures IsSubsequence(Filter(s, keep), s)
    decreases |s|
  {
    if s != [] {
      FilterIsSubsequence(s[1..], keep);
      var rest := Filter(s[1..], keep);
      if keep(s[0]) {
        assert Filter(s, keep) == [s[0]] + rest;
        assert ([s[0]] + rest)[1..] == rest;
      } else {
        assert Filter(s, keep) == rest;
        if rest != [] {
          assert IsSubsequence(rest, s[1..]);
        }
      }
    }
  }

  /** Filtering with a test every element passes gives back the whole sequence. */
  lemma {:induction false} FilterKeepsAll<T>(s: seq<T>, keep: T -> bool)
    requires forall k :: 0 <= k < |s| ==> keep(s[k])
    ensures Filter(s, keep) == s
    decreases |s|
  {
    if s != [] {
      FilterKeepsAll(s[1..], keep);
      assert [s[0]] + s[1..] == s;
    }
  }

  /** Filtering with a test no element passes gives the empty sequence. */
  lemma {:induction false} FilterKeepsNone<T>(s: seq<T>, keep: T -> bool)
    requires forall k :: 0 <= k < |s| ==> !keep(s[k])
    ensures Filter(s, keep) == []
    decreases |s|
  {
    if s != [] {
      FilterKeepsNone(s[1..], keep);
    }
  }

  /** Two tests that agree on every element filter alike. */
  lemma {:induction false} FilterSameTest<T>(s: seq<T>, keep: T -> bool, keep': T -> bool)
    requires forall x :: keep(x) == keep'(x)
    ensures Filter(s, keep) == Filter(s, keep')
    decreases |s|
  {
    if s != [] {
      FilterSameTest(s[1..], keep, keep');
    }
  }

  /** Filtering with a conjunction is filtering twice. */
  lemma {:induction false} FilterConjunction<T>(s: seq<T>, both: T -> bool, first: T -> bool, second: T -> bool)
    requires forall x :: both(x) == (first(x) && second(x))
    ensures Filter(s, both) == Filter(Filter(s, first), second)
    decreases |s|
  {
    if s != [] {
      FilterConjunction(s[1..], both, first, second);
      var inner := Filter(s[1..], first);
      if first(s[0]) {
        assert Filter(s, first) == [s[0]] + inner;
        assert ([s[0]] + inner)[1..] == inner;
      } else {
        assert Filter(s, first) == inner;
      }
    }
  }

  /** Filtering keeps every copy of an element that passes the test and no copy of one that fails it. */
  lemma {:induction false} FilterMultiset<T>(s: seq<T>, keep: T -> bool)
    ensures forall x :: multiset(Filter(s, keep))[x] == if keep(x) then multiset(s)[x] else 0
    decreases |s|
  {
    if s != [] {
      FilterMultiset(s[1..], keep);
      assert s == [s[0]] + s[1..];
      assert multiset(s) == multiset([s[0]]) + multiset(s[1..]);
    }
  }

  /** Filtering a concatenation filters each part. */
  lemma {:induction false} FilterAppend<T>(a: seq<T>, b: seq<T>, keep: T -> bool)
    ensures Filter(a + b, keep) == Filter(a, keep) + Filter(b, keep)
    decreases |a|
  {
    if a != [] {
      FilterAppend(a[1..], b, keep);
      assert (a + b)[1..] == a[1..] + b;
    } else {
      assert a + b == b;
    }
  }
}
