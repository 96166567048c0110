/** Order-preserving filtering of sequences: the `Array.prototype.filter`
    calls that every list edit of the application is built from. */
module Lists {

  /** The elements of `s` that satisfy `p`, in their original order. */
  function Filter<T(==,!new)>(s: seq<T>, p: T -> bool): (r: seq<T>)
    ensures |r| <= |s|
    ensures forall x :: x in r <==> x in s && p(x)
  {
    if |s| == 0 then []
    else (if p(s[0]) then [s[0]] else []) + Filter(s[1..], p)
  }

  /** Filtering keeps every passing element as often as it occurred and
      drops every failing one completely. */
  lemma {:induction false} FilterCount<T(!new)>(s: seq<T>, p: T -> bool)
    ensures forall x :: multiset(Filter(s, p))[x] == if p(x) then multiset(s)[x] else 0
  {
    if |s| > 0 {
      FilterCount(s[1..], p);
      assert s == [s[0]] + s[1..];
    }
  }

  /** Every occurrence of `x` dropped from `s`: `s.filter(y => y !== x)`. */
  function RemoveAll<T(==,!new)>(s: seq<T>, x: T): (r: seq<T>)
    ensures x !in r
    ensures forall y :: y != x ==> (y in r <==> y in s)
    ensures forall y :: y != x ==> multiset(r)[y] == multiset(s)[y]
    ensures |r| <= |s|
    ensures x in s ==> |r| < |s|
    ensures Distinct(s) ==> Distinct(r)
  {
    FilterCount(s, y => y != x);
    FilterKeepsAll(s, y => y != x);
    if Distinct(s) then
      FilterDistinct(s, y => y != x);
      Filter(s, y => y != x)
    else Filter(s, y => y != x)
  }

  /** Every element of `s` satisfies `p`. */
  predicate AllPass<T>(s: seq<T>, p: T -> bool) {
    forall i | 0 <= i < |s| :: p(s[i])
  }

  /** No element occurs twice. */
  predicate Distinct<T(==,!new)>(s: seq<T>) {
    forall i, j | 0 <= i < j < |s| :: s[i] != s[j]
  }

  /** Filtering distributes over concatenation; together with the
      one-element case this pins down the relative order of what is kept. */
  lemma {:induction false} FilterConcat<T(!new)>(a: seq<T>, b: seq<T>, p: T -> bool)
    ensures Filter(a + b, p) == Filter(a, p) + Filter(b, p)
  {
    if |a| == 0 {
      assert a + b == b;
    } else {
      assert (a + b)[1..] == a[1..] + b;
      FilterConcat(a[1..], b, p);
    }
  }

  /** A filter keeps everything exactly when every element passes. */
  lemma {:induction false} FilterKeepsAll<T(!new)>(s: seq<T>, p: T -> bool)
    ensures |Filter(s, p)| == |s| <==> AllPass(s, p)
    ensures Filter(s, p) == s <==> AllPass(s, p)
  {
    if |s| > 0 {
      var t := s[1..];
      FilterKeepsAll(t, p);
      if !p(s[0]) {
        assert |Filter(s, p)| == |Filter(t, p)| <= |t|;
        assert !AllPass(s, p);
      } else {
        assert Filter(s, p) == [s[0]] + Filter(t, p);
        assert s == [s[0]] + t;
        assert AllPass(s, p) <==> AllPass(t, p) by {
          forall i | 1 <= i < |s| ensures s[i] == t[i - 1] { }
        }
      }
    }
  }

  /** A filter that no element passes yields the empty list. */
  lemma {:induction false} FilterNone<T(!new)>(s: seq<T>, p: T -> bool)
    requires forall i | 0 <= i < |s| :: !p(s[i])
    ensures Filter(s, p) == []
  {
    if |s| > 0 {
      FilterNone(s[1..], p);
    }
  }

  /** Filtering twice is filtering once by the conjunction. */
  lemma {:induction false} FilterFilter<T(!new)>(s: seq<T>, p: T -> bool, q: T -> bool, pq: T -> bool)
    requires forall x :: pq(x) == (p(x) && q(x))
    ensures Filter(Filter(s, p), q) == Filter(s, pq)
  {
    if |s| > 0 {
      var t := s[1..];
      FilterFilter(t, p, q, pq);
      if p(s[0]) {
        assert Filter(s, p) == [s[0]] + Filter(t, p);
        FilterConcat([s[0]], Filter(t, p), q);
        assert [s[0]][1..] == [];
      } else {
        assert Filter(s, p) == Filter(t, p);
      }
    }
  }

  /** Filtering never introduces a repetition. */
  lemma {:induction false} FilterDistinct<T(!new)>(s: seq<T>, p: T -> bool)
    requires Distinct(s)
    ensures Distinct(Filter(s, p))
  {
    if |s| > 0 {
      var t := s[1..];
      assert Distinct(t) by {
        forall i, j | 0 <= i < j < |t| ensures t[i] != t[j] {
          assert t[i] == s[i + 1] && t[j] == s[j + 1];
        }
      }
      FilterDistinct(t, p);
      if p(s[0]) {
        assert s[0] !in t by {
          forall k | 0 <= k < |t| ensures t[k] != s[0] {
            assert t[k] == s[k + 1];
          }
        }
        var ft := Filter(t, p);
        assert s[0] !in ft;
        var r := [s[0]] + ft;
        forall i, j | 0 <= i < j < |r| ensures r[i] != r[j] {
          if i == 0 {
            assert r[j] == ft[j - 1];
          } else {
            assert r[i] == ft[i - 1] && r[j] == ft[j - 1];
          }
        }
      }
    }
  }

  /** Removing an element that is absent changes nothing. */
  lemma {:induction false} RemoveAbsent<T(!new)>(s: seq<T>, x: T)
    requires x !in s
    ensures RemoveAll(s, x) == s
  {
    FilterKeepsAll(s, y => y != x);
  }

  /** Removing `x` from a list made only of `x` empties it. */
  lemma RemoveOnly<T(!new)>(s: seq<T>, x: T)
    requires forall i | 0 <= i < |s| :: s[i] == x
    ensures RemoveAll(s, x) == []
  {
    FilterNone(s, y => y != x);
  }

  /** Appending `x` and then removing every `x` is the same as removing
      every `x` straight away. */
  lemma RemoveAfterAppend<T(!new)>(s: seq<T>, x: T)
    ensures RemoveAll(s + [x], x) == RemoveAll(s, x)
  {
    FilterConcat(s, [x], y => y != x);
  }

  /** Removal keeps the order of what stays: removing from a list split in
      two is removing from each part. */
  lemma RemoveConcat<T(!new)>(a: seq<T>, b: seq<T>, x: T)
    ensures RemoveAll(a + b, x) == RemoveAll(a, x) + RemoveAll(b, x)
  {
    FilterConcat(a, b, y => y != x);
  }
}
