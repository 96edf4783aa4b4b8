/** Sequence vocabulary shared by the account store and the note store:
    the result of an accumulation loop that keeps the elements passing a
    test, subsequences, and "descending by a key". */
module Seqs {

  /** The elements of `s` that satisfy `p`, in their original order: what a
      `foreach` loop that appends each passing element to an empty array builds. */
  function Filter<T(!new)>(s: seq<T>, p: T -> bool): (r: seq<T>)
    ensures |r| <= |s|
    ensures forall x :: x in r <==> x in s && p(x)
  {
    if s == [] then []
    else
      var init, last := s[..|s| - 1], s[|s| - 1];
      assert s == init + [last];
      Filter(init, p) + (if p(last) then [last] else [])
  }

  /** One more iteration of the accumulation loop. */
  lemma FilterSnoc<T(!new)>(s: seq<T>, x: T, p: T -> bool)
    ensures Filter(s + [x], p) == Filter(s, p) + (if p(x) then [x] else [])
  {
    assert (s + [x])[..|s|] == s;
  }

  /** Filtering keeps every passing element as often as it occurs, and nothing else. */
  lemma {:induction false} FilterCounts<T(!new)>(s: seq<T>, p: T -> bool)
    ensures forall x :: multiset(Filter(s, p))[x] == if p(x) then multiset(s)[x] else 0
  {
    if s != [] {
      var init, last := s[..|s| - 1], s[|s| - 1];
      assert s == init + [last];
      FilterCounts(init, p);
    }
  }

  /** `f` picks the elements of `a` out of `b` at strictly increasing positions. */
  ghost predicate SubsequenceVia<T>(a: seq<T>, b: seq<T>, f: seq<nat>)
  {
    && |f| == |a|
    && (forall i :: 0 <= i < |f| ==> f[i] < |b| && b[f[i]] == a[i])
    && (forall i, j :: 0 <= i < j < |f| ==> f[i] < f[j])
  }

  /** `a` is `b` with some elements dropped and the rest kept in order. */
  ghost predicate IsSubsequence<T>(a: seq<T>, b: seq<T>)
  {
    exists f :: SubsequenceVia(a, b, f)
  }

  /** A subsequence stays one when the same element is appended to both sides. */
  lemma ExtendBoth<T>(a: seq<T>, b: seq<T>, f: seq<nat>, x: T)
    requires SubsequenceVia(a, b, f)
    ensures SubsequenceVia(a + [x], b + [x], f + [|b|])
  {
    var g := f + [|b|];
    forall i | 0 <= i < |g|
      ensures g[i] < |b + [x]| && (b + [x])[g[i]] == (a + [x])[i]
    {
      if i < |f| {
        assert g[i] == f[i];
      }
    }
  }

  /** A subsequence stays one when the longer side grows. */
  lemma ExtendRight<T>(a: seq<T>, b: seq<T>, f: seq<nat>, x: T)
    requires SubsequenceVia(a, b, f)
    ensures SubsequenceVia(a, b + [x], f)
  {
    forall i | 0 <= i < |f|
      ensures f[i] < |b + [x]| && (b + [x])[f[i]] == a[i]
    {
    }
  }

  /** Filtering keeps the order of what it keeps. */
  lemma {:induction false} FilterIsSubsequence<T(!new)>(s: seq<T>, p: T -> bool)
    ensures IsSubsequence(Filter(s, p), s)
  {
    if s == [] {
      assert SubsequenceVia<T>([], s, []);
    } else {
      var init, last := s[..|s| - 1], s[|s| - 1];
      assert s == init + [last];
      FilterIsSubsequence(init, p);
      var a := Filter(init, p);
      var f: seq<nat> :| SubsequenceVia(a, init, f);
      if p(last) {
        ExtendBoth(a, init, f, last);
        assert SubsequenceVia(Filter(s, p), s, f + [|init|]);
      } else {
        ExtendRight(a, init, f, last);
        assert SubsequenceVia(Filter(s, p), s, f);
      }
    }
  }

  /** Non-increasing by `key`: nothing later has a larger key than anything earlier. */
  ghost predicate SortedDesc<T>(s: seq<T>, key: T -> int)
  {
    forall i, j :: 0 <= i < j < |s| ==> key(s[i]) >= key(s[j])
  }

  /** Dropping elements from a descending sequence leaves it descending. */
  lemma SubsequenceKeepsSortedDesc<T>(a: seq<T>, b: seq<T>, key: T -> int)
    requires IsSubsequence(a, b)
    requires SortedDesc(b, key)
    ensures SortedDesc(a, key)
  {
    var f: seq<nat> :| SubsequenceVia(a, b, f);
    forall i, j | 0 <= i < j < |a|
      ensures key(a[i]) >= key(a[j])
    {
      assert b[f[i]] == a[i] && b[f[j]] == a[j] && f[i] < f[j];
    }
  }

  /** Inserting `x` between the elements whose keys are at least its own
      and those whose keys are smaller keeps a sequence descending. */
  lemma InsertKeepsSortedDesc<T>(s: seq<T>, j: nat, x: T, key: T -> int)
    requires SortedDesc(s, key)
    requires j <= |s|
    requires forall k :: 0 <= k < j ==> key(s[k]) >= key(x)
    requires j < |s| ==> key(s[j]) < key(x)
    ensures SortedDesc(s[..j] + [x] + s[j..], key)
  {
    var t := s[..j] + [x] + s[j..];
    forall a, b | 0 <= a < b < |t|
      ensures key(t[a]) >= key(t[b])
    {
      if b < j {
        assert t[a] == s[a] && t[b] == s[b];
      } else if b == j {
        assert t[a] == s[a] && t[b] == x;
      } else if a < j {
        assert t[a] == s[a] && t[b] == s[b - 1];
      } else if a == j {
        assert t[a] == x && t[b] == s[b - 1] && key(s[j]) >= key(s[b - 1]);
      } else {
        assert t[a] == s[a - 1] && t[b] == s[b - 1];
      }
    }
  }

  /** In a descending sequence, an element whose key is strictly larger than
      every other element's key comes first. */
  lemma {:induction false} StrictMaximumComesFirst<T>(s: seq<T>, key: T -> int, x: T)
    requires SortedDesc(s, key)
    requires x in s
    requires forall y :: y in s && y != x ==> key(y) < key(x)
    ensures s[0] == x
  {
    var k :| 0 <= k < |s| && s[k] == x;
    if k > 0 {
      assert key(s[0]) >= key(s[k]);
    }
  }
}
