/** `Array.prototype.filter` and the facts about it the rest of the model relies on. */
module Seqs {

  /** The elements of `s` that satisfy `p`, in their original order. */
  function Filter<T>(s: seq<T>, p: T -> bool): (r: seq<T>)
    ensures |r| <= |s|
    ensures forall i :: 0 <= i < |r| ==> p(r[i])
  {
    if s == [] then [] else (if p(s[0]) then [s[0]] else []) + Filter(s[1..], p)
  }

  lemma {:induction false} FilterMembers<T>(s: seq<T>, p: T -> bool)
    ensures forall x :: x in Filter(s, p) ==> x in s && p(x)
    ensures forall x :: x in s && p(x) ==> x in Filter(s, p)
  {
    if s != [] {
      FilterMembers(s[1..], p);
      assert s == [s[0]] + s[1..];
    }
  }

  /** Each kept element occurs as many times as in the input; the others not at all. */
  lemma {:induction false} FilterCount<T>(s: seq<T>, p: T -> bool, x: T)
    ensures multiset(Filter(s, p))[x] == if p(x) then multiset(s)[x] else 0
  {
    if s != [] {
      FilterCount(s[1..], p, x);
      assert s == [s[0]] + s[1..];
      assert multiset(s) == multiset{s[0]} + multiset(s[1..]);
      assert Filter(s, p) == (if p(s[0]) then [s[0]] else []) + Filter(s[1..], p);
    }
  }

  lemma {:induction false} FilterAll<T>(s: seq<T>, p: T -> bool)
    requires forall i :: 0 <= i < |s| ==> p(s[i])
    ensures Filter(s, p) == s
  {
    if s != [] {
      FilterAll(s[1..], p);
      assert s == [s[0]] + s[1..];
    }
  }

  lemma {:induction false} FilterNone<T>(s: seq<T>, p: T -> bool)
    requires forall i :: 0 <= i < |s| ==> !p(s[i])
    ensures Filter(s, p) == []
  {
    if s != [] {
      FilterNone(s[1..], p);
    }
  }

  lemma {:induction false} FilterAppend<T>(a: seq<T>, b: seq<T>, p: T -> bool)
    ensures Filter(a + b, p) == Filter(a, p) + Filter(b, p)
  {
    if a == [] {
      assert a + b == b;
    } else {
      var c := a + b;
      assert c != [] && c[0] == a[0] && c[1..] == a[1..] + b;
      FilterAppend(a[1..], b, p);
      var h := if p(a[0]) then [a[0]] else [];
      calc {
        Filter(c, p);
        h + Filter(a[1..] + b, p);
        h + (Filter(a[1..], p) + Filter(b, p));
        (h + Filter(a[1..], p)) + Filter(b, p);
      }
    }
  }

  /** Two predicates that agree on the elements of `s` keep the same elements. */
  lemma {:induction false} FilterSame<T>(s: seq<T>, p: T -> bool, q: T -> bool)
    requires forall i :: 0 <= i < |s| ==> (p(s[i]) <==> q(s[i]))
    ensures Filter(s, p) == Filter(s, q)
  {
    if s != [] {
      FilterSame(s[1..], p, q);
    }
  }

  /** A value at two positions of a sequence occurs at least twice in it. */
  lemma CountAtLeastTwo<T>(r: seq<T>, i: nat, j: nat)
    requires i < j < |r| && r[i] == r[j]
    ensures multiset(r)[r[i]] >= 2
  {
    assert r == r[..j] + [r[j]] + r[j+1..];
    assert r[..j][i] == r[i];
    assert multiset(r) == multiset(r[..j]) + multiset{r[j]} + multiset(r[j+1..]);
  }

  /** A position of a value that occurs in `b`. */
  lemma Locate<T>(b: seq<T>, x: T) returns (k: nat)
    requires x in multiset(b)
    ensures k < |b| && b[k] == x
  {
    k :| k < |b| && b[k] == x;
  }

  /** Taking out the element at `k` takes one copy of it out of the multiset. */
  lemma RemoveAt<T>(b: seq<T>, k: nat)
    requires k < |b|
    ensures b == b[..k] + [b[k]] + b[k + 1..]
    ensures multiset(b[..k] + b[k + 1..]) == multiset(b) - multiset{b[k]}
  {
    assert b == b[..k] + [b[k]] + b[k + 1..];
    assert multiset(b) == multiset(b[..k]) + multiset{b[k]} + multiset(b[k + 1..]);
  }

  /** No value occurs twice. */
  predicate Distinct<T(==)>(s: seq<T>) {
    forall i, j :: 0 <= i < j < |s| ==> s[i] != s[j]
  }

  lemma DistinctSnoc<T>(s: seq<T>, x: T)
    requires Distinct(s) && x !in s
    ensures Distinct(s + [x])
  {
    var t := s + [x];
    forall i, j | 0 <= i < j < |t| ensures t[i] != t[j] {
      assert t[i] == s[i];
    }
  }

  /** In a sequence without repetitions every value occurs at most once. */
  lemma {:induction false} DistinctCount<T>(s: seq<T>, x: T)
    requires Distinct(s)
    ensures multiset(s)[x] <= 1
  {
    if s != [] {
      assert s == [s[0]] + s[1..];
      DistinctCount(s[1..], x);
      if s[0] == x {
        forall k | 0 <= k < |s| - 1 ensures s[1..][k] != x {
          assert s[1..][k] == s[k + 1];
        }
        assert x !in s[1..];
      }
    }
  }

  /** A rearrangement of a sequence without repetitions has none either. */
  lemma PermutationDistinct<T>(s: seq<T>, r: seq<T>)
    requires Distinct(s) && multiset(r) == multiset(s)
    ensures Distinct(r)
  {
    forall i, j | 0 <= i < j < |r| ensures r[i] != r[j] {
      DistinctCount(s, r[i]);
      if r[i] == r[j] {
        CountAtLeastTwo(r, i, j);
        assert false;
      }
    }
  }
}
