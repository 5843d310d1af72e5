/**
  Sequence operations shared by the history store and the currency parser:
  an order-preserving filter (JavaScript's Array.prototype.filter, and the
  character-removing regular expression replace), the subsequence relation
  that specifies it, and a prefix of bounded length (Array.prototype.slice(0, n)).
 */
module Seqs {

  /** The elements of `s` that satisfy `p`, in their original order. */
  function Filter<T>(p: T -> bool, s: seq<T>): (r: seq<T>)
    ensures |r| <= |s|
    ensures forall i :: 0 <= i < |r| ==> p(r[i])
  {
    if s == [] then []
    else if p(s[0]) then [s[0]] + Filter(p, s[1..])
    else Filter(p, s[1..])
  }

  /** `a` is `b` with zero or more elements removed, the rest kept in order. */
  predicate IsSubsequence<T(==)>(a: seq<T>, b: seq<T>)
    decreases |b|
  {
    if a == [] then true
    else if b == [] then false
    else (a[0] == b[0] && IsSubsequence(a[1..], b[1..])) || IsSubsequence(a, b[1..])
  }

  /** The first `n` elements of `s`, or all of `s` when it is shorter. */
  function Take<T>(s: seq<T>, n: nat): (r: seq<T>)
    ensures |r| == if |s| <= n then |s| else n
    ensures forall i :: 0 <= i < |r| ==> r[i] == s[i]
  {
    if |s| <= n then s else s[..n]
  }

  /** Filter keeps every element that satisfies `p` as often as it occurs, and no other. */
  lemma {:induction false} FilterMultiset<T>(p: T -> bool, s: seq<T>)
    ensures forall x :: multiset(Filter(p, s))[x] == if p(x) then multiset(s)[x] else 0
  {
    if s != [] {
      FilterMultiset(p, s[1..]);
      assert s == [s[0]] + s[1..];
    }
  }

  /** An element is in the filtered sequence exactly when it is in `s` and satisfies `p`. */
  lemma FilterMembers<T>(p: T -> bool, s: seq<T>)
    ensures forall x :: x in Filter(p, s) <==> x in s && p(x)
  {
    FilterMultiset(p, s);
    forall x ensures x in Filter(p, s) <==> x in s && p(x) {
      assert x in Filter(p, s) <==> multiset(Filter(p, s))[x] > 0;
      assert x in s <==> multiset(s)[x] > 0;
    }
  }

  /** Filter only drops elements: its result is a subsequence of its input. */
  lemma {:induction false} FilterIsSubsequence<T>(p: T -> bool, s: seq<T>)
    ensures IsSubsequence(Filter(p, s), s)
  {
    if s != [] {
      FilterIsSubsequence(p, s[1..]);
      if p(s[0]) {
        assert Filter(p, s)[1..] == Filter(p, s[1..]);
      } else if Filter(p, s) != [] {
        assert IsSubsequence(Filter(p, s), s[1..]);
      }
    }
  }

  /** When every element satisfies `p`, Filter returns its input unchanged. */
  lemma {:induction false} FilterIdentity<T>(p: T -> bool, s: seq<T>)
    requires forall i :: 0 <= i < |s| ==> p(s[i])
    ensures Filter(p, s) == s
  {
    if s != [] {
      FilterIdentity(p, s[1..]);
    }
  }

  /** When no element satisfies `p`, Filter returns the empty sequence. */
  lemma {:induction false} FilterNone<T>(p: T -> bool, s: seq<T>)
    requires forall i :: 0 <= i < |s| ==> !p(s[i])
    ensures Filter(p, s) == []
  {
    if s != [] {
      FilterNone(p, s[1..]);
    }
  }

  /** Filtering twice with the same test is filtering once. */
  lemma FilterIdempotent<T>(p: T -> bool, s: seq<T>)
    ensures Filter(p, Filter(p, s)) == Filter(p, s)
  {
    FilterIdentity(p, Filter(p, s));
  }

  /** Filter distributes over concatenation. */
  lemma {:induction false} FilterAppend<T>(p: T -> bool, a: seq<T>, b: seq<T>)
    ensures Filter(p, a + b) == Filter(p, a) + Filter(p, b)
  {
    if a == [] {
      assert a + b == b;
    } else {
      FilterAppend(p, a[1..], b);
      assert (a + b)[1..] == a[1..] + b;
    }
  }

  /** A subsequence never holds an element more often than the whole sequence does. */
  lemma {:induction false} SubsequenceMultiset<T>(a: seq<T>, b: seq<T>)
    requires IsSubsequence(a, b)
    ensures multiset(a) <= multiset(b)
    decreases |b|
  {
    if a != [] {
      assert b == [b[0]] + b[1..];
      if a[0] == b[0] && IsSubsequence(a[1..], b[1..]) {
        SubsequenceMultiset(a[1..], b[1..]);
        assert a == [a[0]] + a[1..];
      } else {
        SubsequenceMultiset(a, b[1..]);
      }
    }
  }

  /**
    Filter is the only subsequence of `s` whose elements all satisfy `p` and
    that keeps every occurrence of every such element: these three properties
    characterise it completely.
   */
  lemma {:induction false} FilterUnique<T>(p: T -> bool, s: seq<T>, t: seq<T>)
    requires IsSubsequence(t, s)
    requires forall i :: 0 <= i < |t| ==> p(t[i])
    requires forall x :: p(x) ==> multiset(t)[x] == multiset(s)[x]
    ensures t == Filter(p, s)
    decreases |s|
  {
    if s == [] {
      assert t == [];
    } else {
      assert s == [s[0]] + s[1..];
      if p(s[0]) {
        if t != [] && t[0] == s[0] && IsSubsequence(t[1..], s[1..]) {
          assert t == [t[0]] + t[1..];
          forall x | p(x) ensures multiset(t[1..])[x] == multiset(s[1..])[x] {
            assert multiset(t)[x] == multiset(t[1..])[x] + (if x == s[0] then 1 else 0);
          }
          FilterUnique(p, s[1..], t[1..]);
        } else {
          assert IsSubsequence(t, s[1..]);
          SubsequenceMultiset(t, s[1..]);
          assert false;
        }
      } else {
        assert t != [] ==> t[0] != s[0];
        assert IsSubsequence(t, s[1..]);
        forall x | p(x) ensures multiset(t)[x] == multiset(s[1..])[x] {
          assert x != s[0];
        }
        FilterUnique(p, s[1..], t);
      }
    }
  }

  /** Taking `n` elements after putting `a` in front of a sequence already cut to `n`. */
  lemma TakeAppendTake<T>(a: seq<T>, b: seq<T>, n: nat)
    ensures Take(a + Take(b, n), n) == Take(a + b, n)
  {
    var l, r := Take(a + Take(b, n), n), Take(a + b, n);
    assert |l| == |r|;
    forall i | 0 <= i < |l| ensures l[i] == r[i] {
      if i >= |a| {
        assert l[i] == Take(b, n)[i - |a|];
      }
    }
  }
}
