/** The optional value of a lookup that may find nothing (JavaScript's `undefined`). */
module Options {
  datatype Option<+T> = None | Some(value: T) {
    function GetOr(default: T): T {
      match this
      case Some(v) => v
      case None => default
    }
  }
}

/** The list operations the hooks build their new states from: `filter`,
    `map`, `find` and `slice(0, n)` on arrays. */
module Seqs {
  import opened Options

  /** `Array.prototype.filter`: the elements that pass, in their original order. */
  function Filter<T(==)>(s: seq<T>, keep: T -> bool): (r: seq<T>)
    ensures |r| <= |s|
    ensures forall k :: 0 <= k < |r| ==> r[k] in s && keep(r[k])
    ensures forall k :: 0 <= k < |s| && keep(s[k]) ==> s[k] in r
  {
    if s == [] then []
    else (if keep(s[0]) then [s[0]] else []) + Filter(s[1..], keep)
  }

  /** `Array.prototype.map`. */
  function Map<T, U>(s: seq<T>, f: T -> U): (r: seq<U>)
    ensures |r| == |s|
    ensures forall k :: 0 <= k < |s| ==> r[k] == f(s[k])
  {
    if s == [] then [] else [f(s[0])] + Map(s[1..], f)
  }

  /** `Array.prototype.find`: the first element that passes, if any. */
  function Find<T(==)>(s: seq<T>, p: T -> bool): (r: Option<T>)
    ensures r.None? <==> forall k :: 0 <= k < |s| ==> !p(s[k])
    ensures r.Some? ==> exists i :: 0 <= i < |s| && s[i] == r.value && p(s[i]) && forall j :: 0 <= j < i ==> !p(s[j])
  {
    if s == [] then None
    else if p(s[0]) then Some(s[0])
    else
      var r := Find(s[1..], p);
      if r.Some? then
        var i :| 0 <= i < |s[1..]| && s[1..][i] == r.value && p(s[1..][i]) && forall j :: 0 <= j < i ==> !p(s[1..][j]);
        assert s[i + 1] == r.value && forall j :: 0 <= j < i + 1 ==> !p(s[j]);
        r
      else r
  }

  /** `slice(0, n)`: at most the first `n` elements. */
  function Take<T>(s: seq<T>, n: nat): (r: seq<T>)
    ensures |r| == if |s| < n then |s| else n
    ensures r == s[..|r|]
  {
    if |s| <= n then s else s[..n]
  }

  /** `a` is `b` with some elements left out and the rest in the same order. */
  predicate IsSubsequence<T(==)>(a: seq<T>, b: seq<T>)
    decreases |b|
  {
    if a == [] then true
    else if b == [] then false
    else (a[0] == b[0] && IsSubsequence(a[1..], b[1..])) || IsSubsequence(a, b[1..])
  }

  lemma {:induction false} FilterIsSubsequence<T>(s: seq<T>, keep: T -> bool)
    ensures IsSubsequence(Filter(s, keep), s)
  {
    if s != [] {
      FilterIsSubsequence(s[1..], keep);
      if keep(s[0]) {
        assert Filter(s, keep) == [s[0]] + Filter(s[1..], keep);
      } else {
        assert Filter(s, keep) == Filter(s[1..], keep);
      }
    }
  }

  lemma {:induction false} SelfSubsequence<T>(s: seq<T>)
    ensures IsSubsequence(s, s)
    decreases |s|
  {
    if s != [] {
      SelfSubsequence(s[1..]);
    }
  }

  lemma {:induction false} PrefixIsSubsequence<T>(a: seq<T>, b: seq<T>, n: nat)
    requires n <= |a| && IsSubsequence(a, b)
    ensures IsSubsequence(a[..n], b)
    decreases |b|
  {
    if n > 0 {
      assert a != [] && b != [];
      if a[0] == b[0] && IsSubsequence(a[1..], b[1..]) {
        PrefixIsSubsequence(a[1..], b[1..], n - 1);
        assert a[..n][1..] == a[1..][..n - 1];
      } else {
        PrefixIsSubsequence(a, b[1..], n);
      }
    }
  }

  /** Filtering keeps every copy of an element that passes and no copy of one that fails. */
  lemma {:induction false} FilterMultiset<T>(s: seq<T>, keep: T -> bool)
    ensures forall x :: multiset(Filter(s, keep))[x] == if keep(x) then multiset(s)[x] else 0
  {
    if s != [] {
      FilterMultiset(s[1..], keep);
      assert s == [s[0]] + s[1..];
    }
  }

  /** Filtering splits over concatenation. */
  lemma {:induction false} FilterConcat<T>(a: seq<T>, b: seq<T>, keep: T -> bool)
    ensures Filter(a + b, keep) == Filter(a, keep) + Filter(b, keep)
  {
    if a != [] {
      FilterConcat(a[1..], b, keep);
      assert (a + b)[1..] == a[1..] + b;
    } else {
      assert a + b == b;
    }
  }

  /** Filtering changes nothing exactly when every element passes. */
  lemma {:induction false} FilterUnchangedIff<T>(s: seq<T>, keep: T -> bool)
    ensures Filter(s, keep) == s <==> forall k :: 0 <= k < |s| ==> keep(s[k])
  {
    if s != [] {
      FilterUnchangedIff(s[1..], keep);
      if !keep(s[0]) {
        assert |Filter(s, keep)| < |s|;
      } else if Filter(s, keep) == s {
        assert Filter(s[1..], keep) == s[1..];
      }
    }
  }

}
