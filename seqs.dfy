/** Sequence helpers shared by the model: JavaScript's `Array.prototype.filter`
    and the notion of "a subsequence in the same order". */
module Seqs {

  /** `s.filter(p)`: the elements of `s` that satisfy `p`, in their order in `s`. */
  function Keep<T>(s: seq<T>, p: T -> bool): (r: seq<T>)
    ensures |r| <= |s|
    ensures forall x :: x in r ==> x in s && p(x)
  {
    if s == [] then []
    else if p(s[0]) then [s[0]] + Keep(s[1..], p)
    else Keep(s[1..], p)
  }

  /** `a` is obtained from `b` by deleting elements, without reordering. */
  predicate IsSubsequence<T(==)>(a: seq<T>, b: seq<T>)
    decreases |b|
  {
    if a == [] then true
    else if b == [] then false
    else if a[0] == b[0] then IsSubsequence(a[1..], b[1..])
    else IsSubsequence(a, b[1..])
  }

  /** Every element of `s` that satisfies `p` survives the filter. */
  lemma {:induction false} KeepComplete<T>(s: seq<T>, p: T -> bool, x: T)
    requires x in s && p(x)
    ensures x in Keep(s, p)
  {
    if s[0] != x {
      KeepComplete(s[1..], p, x);
    }
  }

  /** The filter keeps exactly the elements that satisfy the predicate. */
  lemma KeepMembers<T>(s: seq<T>, p: T -> bool)
    ensures forall x :: x in Keep(s, p) <==> x in s && p(x)
  {
    forall x | x in s && p(x)
      ensures x in Keep(s, p)
    {
      KeepComplete(s, p, x);
    }
  }

  /** The filter keeps catalog order: its result is a subsequence of its input. */
  lemma {:induction false} KeepIsSubsequence<T>(s: seq<T>, p: T -> bool)
    ensures IsSubsequence(Keep(s, p), s)
  {
    if s != [] {
      KeepIsSubsequence(s[1..], p);
      if !p(s[0]) {
        SubsequenceSkip(Keep(s[1..], p), s[0], s[1..]);
      }
    }
  }

  /** Prepending an element to the longer sequence keeps a subsequence one. */
  lemma {:induction false} SubsequenceSkip<T>(a: seq<T>, x: T, b: seq<T>)
    requires IsSubsequence(a, b)
    ensures IsSubsequence(a, [x] + b)
    decreases |b|, 1
  {
    assert ([x] + b)[1..] == b;
    if a != [] && a[0] == x {
      SubsequenceDrop(a, b);
    }
  }

  /** Dropping the first element of a subsequence keeps it one. */
  lemma {:induction false} SubsequenceDrop<T>(a: seq<T>, b: seq<T>)
    requires a != [] && IsSubsequence(a, b)
    ensures IsSubsequence(a[1..], b)
    decreases |b|, 0
  {
    if a[0] != b[0] {
      SubsequenceDrop(a, b[1..]);
    }
    if a[1..] != [] {
      SubsequenceSkip(a[1..], b[0], b[1..]);
      assert [b[0]] + b[1..] == b;
    }
  }

  /** Filtering twice with the same predicate is filtering once. */
  lemma {:induction false} KeepIdempotent<T>(s: seq<T>, p: T -> bool)
    ensures Keep(Keep(s, p), p) == Keep(s, p)
  {
    if s != [] {
      KeepIdempotent(s[1..], p);
      if p(s[0]) {
        var r := [s[0]] + Keep(s[1..], p);
        assert r[0] == s[0] && r[1..] == Keep(s[1..], p);
      }
    }
  }

  /** Two predicates that agree on every element filter alike. */
  lemma {:induction false} KeepAgree<T>(s: seq<T>, p: T -> bool, q: T -> bool)
    requires forall x :: x in s ==> p(x) == q(x)
    ensures Keep(s, p) == Keep(s, q)
  {
    if s != [] {
      KeepAgree(s[1..], p, q);
    }
  }

  /** No two elements of `s` share a key. */
  predicate DistinctBy<T, K(==)>(s: seq<T>, key: T -> K)
  {
    forall i, j :: 0 <= i < j < |s| ==> key(s[i]) != key(s[j])
  }

  /** Filtering keeps keys distinct. */
  lemma {:induction false} KeepDistinct<T, K>(s: seq<T>, p: T -> bool, key: T -> K)
    requires DistinctBy(s, key)
    ensures DistinctBy(Keep(s, p), key)
  {
    if s != [] {
      var rest := s[1..];
      assert DistinctBy(rest, key);
      KeepDistinct(rest, p, key);
      var tail := Keep(rest, p);
      if p(s[0]) {
        var r := [s[0]] + tail;
        forall j | 0 < j < |r|
          ensures key(r[0]) != key(r[j])
        {
          assert r[j] in tail;
          var i :| 0 <= i < |rest| && rest[i] == r[j];
          assert s[i + 1] == r[j];
        }
      }
    }
  }

  /** A predicate false on every element keeps nothing. */
  lemma {:induction false} KeepNone<T>(s: seq<T>, p: T -> bool)
    requires forall x :: x in s ==> !p(x)
    ensures Keep(s, p) == []
  {
    if s != [] {
      KeepNone(s[1..], p);
    }
  }

  /** A predicate true on every element keeps the whole sequence. */
  lemma {:induction false} KeepAll<T>(s: seq<T>, p: T -> bool)
    requires forall x :: x in s ==> p(x)
    ensures Keep(s, p) == s
  {
    if s != [] {
      KeepAll(s[1..], p);
      assert [s[0]] + s[1..] == s;
    }
  }

  /** What follows a prefix in a concatenation is the rest. */
  lemma AfterPrefix<T>(a: seq<T>, t: seq<T>)
    ensures a <= a + t && (a + t)[|a|..] == t
  {
  }

  /** Regrouping a four-part concatenation. */
  lemma ConcatAssoc<T>(a: seq<T>, b: seq<T>, c: seq<T>, d: seq<T>)
    ensures a + b + c + d == a + (b + c + d)
  {
  }

  /** A subset is no larger than its superset. */
  lemma {:induction false} SubsetCardinality<T>(a: set<T>, b: set<T>)
    requires a <= b
    ensures |a| <= |b|
  {
    assert b == a + (b - a);
  }
}

/** The optional value of a JavaScript property read: `undefined` or a value. */
module Wrappers {
  datatype Option<+T> = None | Some(value: T)
}
