/**
  Sequence operations shared by the dashboard's filters, counters and
  de-duplicators: `Array.prototype.filter`, order-preserving subsequences,
  and the insertion-ordered `Set` that the source fills with `add`.
*/
module Seqs {

  /** `s.filter(p)`: the elements of `s` that satisfy `p`, in their original order. */
  function Filter<T>(s: seq<T>, p: T -> bool): (r: seq<T>)
    ensures |r| <= |s|
    ensures forall i :: 0 <= i < |r| ==> p(r[i])
  {
    if s == [] then []
    else if p(s[0]) then [s[0]] + Filter(s[1..], p)
    else Filter(s[1..], p)
  }

  /** `a` is `b` with some elements deleted and the rest kept in order. */
  predicate IsSubsequence<T(==)>(a: seq<T>, b: seq<T>)
    decreases |b|
  {
    if b == [] then a == []
    else IsSubsequence(a, b[1..]) || (a != [] && a[0] == b[0] && IsSubsequence(a[1..], b[1..]))
  }

  predicate NoDuplicates<T(==)>(s: seq<T>) {
    forall i, j :: 0 <= i < j < |s| ==> s[i] != s[j]
  }

  lemma {:induction false} SubsequenceMembers<T>(a: seq<T>, b: seq<T>)
    requires IsSubsequence(a, b)
    ensures |a| <= |b|
    ensures forall x :: x in a ==> x in b
    decreases |b|
  {
    if b != [] {
      if IsSubsequence(a, b[1..]) {
        SubsequenceMembers(a, b[1..]);
      } else {
        SubsequenceMembers(a[1..], b[1..]);
        assert a == [a[0]] + a[1..];
      }
    }
  }

  /** A filter keeps its input's order: the result is a subsequence of the input. */
  lemma {:induction false} FilterIsSubsequence<T>(s: seq<T>, p: T -> bool)
    ensures IsSubsequence(Filter(s, p), s)
  {
    if s != [] {
      FilterIsSubsequence(s[1..], p);
      if p(s[0]) {
        var r := Filter(s, p);
        assert r[0] == s[0] && r[1..] == Filter(s[1..], p);
      }
    }
  }

  lemma {:induction false} FilterMembership<T>(s: seq<T>, p: T -> bool, x: T)
    ensures x in Filter(s, p) <==> x in s && p(x)
  {
    if s != [] {
      FilterMembership(s[1..], p, x);
      assert x in s <==> x == s[0] || x in s[1..];
    }
  }

  /** A filter whose predicate holds everywhere returns its input unchanged. */
  lemma {:induction false} FilterKeepsAll<T>(s: seq<T>, p: T -> bool)
    requires forall i :: 0 <= i < |s| ==> p(s[i])
    ensures Filter(s, p) == s
  {
    if s != [] {
      FilterKeepsAll(s[1..], p);
    }
  }

  /** Two predicates that agree on every element keep the same elements. */
  lemma {:induction false} FilterCongruent<T>(s: seq<T>, p: T -> bool, q: T -> bool)
    requires forall i :: 0 <= i < |s| ==> p(s[i]) == q(s[i])
    ensures Filter(s, p) == Filter(s, q)
  {
    if s != [] {
      FilterCongruent(s[1..], p, q);
    }
  }

  lemma {:induction false} FilterNoneHold<T>(s: seq<T>, p: T -> bool)
    requires forall i :: 0 <= i < |s| ==> !p(s[i])
    ensures Filter(s, p) == []
  {
    if s != [] {
      FilterNoneHold(s[1..], p);
    }
  }

  lemma FilterIdempotent<T>(s: seq<T>, p: T -> bool)
    ensures Filter(Filter(s, p), p) == Filter(s, p)
  {
    FilterKeepsAll(Filter(s, p), p);
  }

  lemma {:induction false} FilterAppend<T>(a: seq<T>, b: seq<T>, p: T -> bool)
    ensures Filter(a + b, p) == Filter(a, p) + Filter(b, p)
  {
    if a == [] {
      assert a + b == b;
    } else {
      assert (a + b)[0] == a[0];
      assert (a + b)[1..] == a[1..] + b;
      FilterAppend(a[1..], b, p);
    }
  }

  /** A stronger predicate keeps a subsequence of what a weaker one keeps. */
  lemma {:induction false} FilterNarrower<T>(s: seq<T>, p: T -> bool, q: T -> bool)
    requires forall i :: 0 <= i < |s| && p(s[i]) ==> q(s[i])
    ensures IsSubsequence(Filter(s, p), Filter(s, q))
    ensures |Filter(s, p)| <= |Filter(s, q)|
  {
    if s != [] {
      FilterNarrower(s[1..], p, q);
      var a, b := Filter(s, p), Filter(s, q);
      if p(s[0]) {
        assert a[0] == b[0] && a[1..] == Filter(s[1..], p) && b[1..] == Filter(s[1..], q);
      } else if q(s[0]) {
        assert b[1..] == Filter(s[1..], q);
      }
    }
    SubsequenceMembers(Filter(s, p), Filter(s, q));
  }

  /** Three filters whose predicates split the input between them add up to its length. */
  lemma {:induction false} FilterPartition<T>(s: seq<T>, p: T -> bool, q: T -> bool, r: T -> bool)
    requires forall i :: 0 <= i < |s| ==> (p(s[i]) || q(s[i]) || r(s[i]))
    requires forall i :: 0 <= i < |s| ==> !(p(s[i]) && q(s[i])) && !(p(s[i]) && r(s[i])) && !(q(s[i]) && r(s[i]))
    ensures |Filter(s, p)| + |Filter(s, q)| + |Filter(s, r)| == |s|
  {
    if s != [] {
      FilterPartition(s[1..], p, q, r);
    }
  }

  /** The number of kept elements depends only on the multiset of the input. */
  lemma {:induction false} FilterLengthPermutation<T>(a: seq<T>, b: seq<T>, p: T -> bool)
    requires multiset(a) == multiset(b)
    ensures |Filter(a, p)| == |Filter(b, p)|
  {
    if a == [] {
      assert |multiset(b)| == 0;
    } else {
      assert a[0] in multiset(b);
      var j :| 0 <= j < |b| && b[j] == a[0];
      RemoveMatching(a, b, j);
      FilterLengthPermutation(a[1..], b[..j] + b[j + 1..], p);
      FilterRemoveAt(b, j, p);
    }
  }

  lemma RemoveMatching<T>(a: seq<T>, b: seq<T>, j: nat)
    requires multiset(a) == multiset(b)
    requires a != [] && j < |b| && b[j] == a[0]
    ensures multiset(a[1..]) == multiset(b[..j] + b[j + 1..])
  {
    assert a == [a[0]] + a[1..];
    assert b == b[..j] + [b[j]] + b[j + 1..];
    calc {
      multiset(a[1..]);
      multiset(a) - multiset{a[0]};
      multiset(b) - multiset{b[j]};
      multiset(b[..j]) + multiset(b[j + 1..]);
      multiset(b[..j] + b[j + 1..]);
    }
  }

  lemma FilterRemoveAt<T>(b: seq<T>, j: nat, p: T -> bool)
    requires j < |b|
    ensures |Filter(b, p)| == |Filter(b[..j] + b[j + 1..], p)| + (if p(b[j]) then 1 else 0)
  {
    assert b == b[..j] + ([b[j]] + b[j + 1..]);
    FilterAppend(b[..j], [b[j]] + b[j + 1..], p);
    FilterAppend([b[j]], b[j + 1..], p);
    FilterAppend(b[..j], b[j + 1..], p);
  }

  /** `set.add(x)` on a JavaScript `Set`, which remembers insertion order. */
  function Insert<T(==)>(o: seq<T>, x: T): seq<T> {
    if x in o then o else o + [x]
  }

  /** Adds the elements of `xs` one after another, as a `forEach` calling `set.add` does. */
  function AddAll<T(==)>(o: seq<T>, xs: seq<T>): seq<T> {
    if xs == [] then o else Insert(AddAll(o, xs[..|xs| - 1]), xs[|xs| - 1])
  }

  /**
    Reference definition of "in first-seen order": the elements `xs[i]` that
    are not in `excluded` and do not occur in `xs[..i]`, in the order of `i`.
  */
  function FirstSeen<T(==)>(xs: seq<T>, excluded: seq<T>): seq<T> {
    if xs == [] then []
    else
      var init, last := xs[..|xs| - 1], xs[|xs| - 1];
      if last in excluded || last in init then FirstSeen(init, excluded)
      else FirstSeen(init, excluded) + [last]
  }

  lemma {:induction false} FirstSeenMembers<T>(xs: seq<T>, excluded: seq<T>)
    ensures forall x :: x in FirstSeen(xs, excluded) <==> x in xs && x !in excluded
  {
    if xs != [] {
      var init := xs[..|xs| - 1];
      FirstSeenMembers(init, excluded);
      assert xs == init + [xs[|xs| - 1]];
    }
  }

  lemma {:induction false} FirstSeenNoDuplicates<T>(xs: seq<T>, excluded: seq<T>)
    ensures NoDuplicates(FirstSeen(xs, excluded))
  {
    if xs != [] {
      var init := xs[..|xs| - 1];
      FirstSeenNoDuplicates(init, excluded);
      FirstSeenMembers(init, excluded);
    }
  }

  lemma {:induction false} FirstSeenLength<T>(xs: seq<T>, excluded: seq<T>)
    ensures |FirstSeen(xs, excluded)| <= |xs|
  {
    if xs != [] {
      FirstSeenLength(xs[..|xs| - 1], excluded);
    }
  }

  /** Filling an insertion-ordered set appends exactly the first-seen new elements. */
  lemma {:induction false} AddAllIsFirstSeen<T>(o: seq<T>, xs: seq<T>)
    ensures AddAll(o, xs) == o + FirstSeen(xs, o)
  {
    if xs != [] {
      var init, last := xs[..|xs| - 1], xs[|xs| - 1];
      AddAllIsFirstSeen(o, init);
      FirstSeenMembers(init, o);
      assert last in o + FirstSeen(init, o) <==> last in o || last in init;
    }
  }

  /**
    Filling a set seeded with `o` and then dropping the seed's members with
    `p` leaves the new elements in first-seen order.
  */
  lemma FilterOutSeed<T>(o: seq<T>, xs: seq<T>, p: T -> bool)
    requires forall x :: p(x) <==> x !in o
    ensures Filter(AddAll(o, xs), p) == FirstSeen(xs, o)
  {
    var extras := FirstSeen(xs, o);
    AddAllIsFirstSeen(o, xs);
    FilterAppend(o, extras, p);
    FilterNoneHold(o, p);
    FirstSeenMembers(xs, o);
    forall i | 0 <= i < |extras| ensures p(extras[i]) {
      assert extras[i] in extras;
    }
    FilterKeepsAll(extras, p);
  }

  lemma NoDuplicatesConcat<T>(a: seq<T>, b: seq<T>)
    requires NoDuplicates(a) && NoDuplicates(b)
    requires forall x :: x in b ==> x !in a
    ensures NoDuplicates(a + b)
  {
    forall i, j | 0 <= i < j < |a + b| ensures (a + b)[i] != (a + b)[j] {
      if j >= |a| && i < |a| {
        assert (a + b)[j] in b;
      }
    }
  }
}
