/** Generic sequence operations that stand in for JavaScript's
    `Array.prototype.filter` and `Array.prototype.find`. */
module Seqs {
  import opened Wrappers

  /** `a` is obtained from `b` by deleting elements: an order-preserving
      subsequence. */
  ghost predicate IsSubsequence<T>(a: seq<T>, b: seq<T>)
    decreases |b|
  {
    |a| == 0 || (|b| > 0 && ((a[0] == b[0] && IsSubsequence(a[1..], b[1..])) || IsSubsequence(a, b[1..])))
  }

  lemma {:induction false} SubsequenceReflexive<T>(a: seq<T>)
    ensures IsSubsequence(a, a)
    decreases |a|
  {
    if |a| > 0 {
      SubsequenceReflexive(a[1..]);
    }
  }

  lemma {:induction false} SubsequenceTransitive<T>(a: seq<T>, b: seq<T>, c: seq<T>)
    requires IsSubsequence(a, b) && IsSubsequence(b, c)
    ensures IsSubsequence(a, c)
    decreases |c|
  {
    if |a| > 0 {
      if b[0] == c[0] && IsSubsequence(b[1..], c[1..]) {
        if a[0] == b[0] && IsSubsequence(a[1..], b[1..]) {
          SubsequenceTransitive(a[1..], b[1..], c[1..]);
        } else {
          SubsequenceTransitive(a, b[1..], c[1..]);
        }
      } else {
        SubsequenceTransitive(a, b, c[1..]);
      }
    }
  }

  /** A subsequence is never longer than the sequence it comes from. */
  lemma {:induction false} SubsequenceLength<T>(a: seq<T>, b: seq<T>)
    requires IsSubsequence(a, b)
    ensures |a| <= |b|
    decreases |b|
  {
    if |a| > 0 {
      if a[0] == b[0] && IsSubsequence(a[1..], b[1..]) {
        SubsequenceLength(a[1..], b[1..]);
      } else {
        SubsequenceLength(a, b[1..]);
      }
    }
  }

  /** `s.filter(p)`: the elements of `s` satisfying `p`, in their original order. */
  function Filter<T>(s: seq<T>, p: T -> bool): (r: seq<T>)
    ensures IsSubsequence(r, s)
    ensures forall i :: 0 <= i < |r| ==> p(r[i])
    ensures forall i :: 0 <= i < |s| && p(s[i]) ==> s[i] in r
    decreases |s|
  {
    if |s| == 0 then []
    else
      var rest := Filter(s[1..], p);
      assert forall i :: 1 <= i < |s| ==> s[i] == s[1..][i - 1];
      if p(s[0]) then [s[0]] + rest else rest
  }

  /** An element survives filtering exactly when it occurs in `s` and satisfies `p`. */
  lemma {:induction false} FilterMembership<T>(s: seq<T>, p: T -> bool, x: T)
    ensures x in Filter(s, p) <==> x in s && p(x)
    decreases |s|
  {
    if |s| > 0 {
      FilterMembership(s[1..], p, x);
      assert x in s <==> x == s[0] || x in s[1..];
    }
  }

  /** Filtering distributes over concatenation; with the singleton case this
      pins `Filter` down completely. */
  lemma {:induction false} FilterConcat<T>(a: seq<T>, b: seq<T>, p: T -> bool)
    ensures Filter(a + b, p) == Filter(a, p) + Filter(b, p)
    decreases |a|
  {
    if |a| == 0 {
      assert a + b == b;
    } else {
      assert (a + b)[1..] == a[1..] + b;
      FilterConcat(a[1..], b, p);
    }
  }

  /** Filtering keeps everything exactly when every element satisfies the predicate. */
  lemma {:induction false} FilterKeepsAll<T>(s: seq<T>, p: T -> bool)
    ensures Filter(s, p) == s <==> forall i :: 0 <= i < |s| ==> p(s[i])
    decreases |s|
  {
    if |s| > 0 {
      FilterKeepsAll(s[1..], p);
      if !p(s[0]) {
        SubsequenceLength(Filter(s[1..], p), s[1..]);
      }
      assert forall i :: 1 <= i < |s| ==> s[1..][i - 1] == s[i];
    }
  }

  /** Filtering keeps nothing when no element satisfies the predicate. */
  lemma {:induction false} FilterKeepsNone<T>(s: seq<T>, p: T -> bool)
    requires forall i :: 0 <= i < |s| ==> !p(s[i])
    ensures Filter(s, p) == []
    decreases |s|
  {
    if |s| > 0 {
      assert forall i :: 0 <= i < |s[1..]| ==> s[1..][i] == s[i + 1];
      FilterKeepsNone(s[1..], p);
    }
  }

  /** Two predicates that agree on the elements of `s` filter it alike. */
  lemma {:induction false} FilterExtensional<T>(s: seq<T>, p: T -> bool, q: T -> bool)
    requires forall i :: 0 <= i < |s| ==> p(s[i]) == q(s[i])
    ensures Filter(s, p) == Filter(s, q)
    decreases |s|
  {
    if |s| > 0 {
      assert forall i :: 0 <= i < |s[1..]| ==> s[1..][i] == s[i + 1];
      FilterExtensional(s[1..], p, q);
    }
  }

  /** Filtering twice is filtering once by the conjunction: successive
      filters are an AND. */
  lemma {:induction false} FilterFilter<T>(s: seq<T>, p: T -> bool, q: T -> bool, both: T -> bool)
    requires forall i :: 0 <= i < |s| ==> both(s[i]) == (p(s[i]) && q(s[i]))
    ensures Filter(Filter(s, p), q) == Filter(s, both)
    decreases |s|
  {
    if |s| > 0 {
      assert forall i :: 0 <= i < |s[1..]| ==> s[1..][i] == s[i + 1];
      FilterFilter(s[1..], p, q, both);
      if p(s[0]) {
        var rest := Filter(s[1..], p);
        assert ([s[0]] + rest)[1..] == rest;
      }
    }
  }

  /** A weaker predicate keeps at least what a stronger one keeps, in order. */
  lemma {:induction false} FilterMonotone<T>(s: seq<T>, p: T -> bool, q: T -> bool)
    requires forall i :: 0 <= i < |s| ==> p(s[i]) ==> q(s[i])
    ensures IsSubsequence(Filter(s, p), Filter(s, q))
    decreases |s|
  {
    if |s| > 0 {
      assert forall i :: 0 <= i < |s[1..]| ==> s[1..][i] == s[i + 1];
      FilterMonotone(s[1..], p, q);
      var fp := Filter(s[1..], p);
      var fq := Filter(s[1..], q);
      if p(s[0]) {
        assert ([s[0]] + fp)[1..] == fp && ([s[0]] + fq)[1..] == fq;
      } else if q(s[0]) {
        assert ([s[0]] + fq)[1..] == fq;
        if |fp| > 0 {
          assert IsSubsequence(fp, [s[0]] + fq);
        }
      }
    }
  }

  /** `s.findIndex(p)`, with "not found" as `None`: the first index whose
      element satisfies `p`. */
  function FindIndex<T>(s: seq<T>, p: T -> bool): (r: Option<nat>)
    ensures r.None? <==> forall i :: 0 <= i < |s| ==> !p(s[i])
    ensures r.Some? ==> r.value < |s| && p(s[r.value])
    ensures r.Some? ==> forall j :: 0 <= j < r.value ==> !p(s[j])
    decreases |s|
  {
    if |s| == 0 then None
    else if p(s[0]) then Some(0)
    else
      match FindIndex(s[1..], p)
      case None => None
      case Some(k) => Some(k + 1)
  }

  /** `s.find(p)`: the first element satisfying `p`, or `None`. */
  function Find<T>(s: seq<T>, p: T -> bool): (r: Option<T>)
    ensures r.None? <==> forall i :: 0 <= i < |s| ==> !p(s[i])
    ensures r.Some? ==> exists k :: 0 <= k < |s| && s[k] == r.value && p(s[k]) &&
                                    forall j :: 0 <= j < k ==> !p(s[j])
  {
    match FindIndex(s, p)
    case None => None
    case Some(k) => Some(s[k])
  }
}
