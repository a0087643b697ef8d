/** Small value types and sequence operations shared by the rule-engine modules:
    Ruby's `nil`-or-value, and the order-keeping list filters (`select`,
    `partition`) that the engine is built from. */
module Common {

  /** A value or Ruby's `nil`. */
  datatype Option<+T> = None | Some(value: T) {
    function GetOr(default: T): T {
      if Some? then value else default
    }
  }

  /** `s.select(&p)`: the elements of `s` that satisfy `p`, in their order in `s`. */
  function Filter<T>(s: seq<T>, p: T -> bool): (r: seq<T>)
    ensures |r| <= |s|
    ensures forall i :: 0 <= i < |r| ==> r[i] in s && p(r[i])
    ensures forall i :: 0 <= i < |s| && p(s[i]) ==> s[i] in r
  {
    if s == [] then []
    else
      var rest := Filter(s[1..], p);
      if p(s[0]) then [s[0]] + rest else rest
  }

  /** The negation of a predicate (the `!` inside a `select { |x| !... }` block). */
  function Not<T>(p: T -> bool): T -> bool {
    x => !p(x)
  }

  /** `s.partition(&p)`: the elements that satisfy `p` and those that do not, each in
      their order in `s`. */
  function Partition<T>(s: seq<T>, p: T -> bool): (r: (seq<T>, seq<T>))
    ensures |r.0| + |r.1| == |s|
    ensures multiset(r.0) + multiset(r.1) == multiset(s)
    ensures forall i :: 0 <= i < |r.0| ==> p(r.0[i])
    ensures forall i :: 0 <= i < |r.1| ==> !p(r.1[i])
    ensures IsSubsequence(r.0, s) && IsSubsequence(r.1, s)
  {
    PartitionSplits(s, p);
    FilterIsSubsequence(s, p);
    FilterIsSubsequence(s, Not(p));
    (Filter(s, p), Filter(s, Not(p)))
  }

  lemma {:induction false} PartitionSplits<T>(s: seq<T>, p: T -> bool)
    ensures |Filter(s, p)| + |Filter(s, Not(p))| == |s|
    ensures multiset(Filter(s, p)) + multiset(Filter(s, Not(p))) == multiset(s)
  {
    if s != [] {
      PartitionSplits(s[1..], p);
      assert s == [s[0]] + s[1..];
    }
  }

  /** `a` is obtained from `b` by deleting elements: it keeps `b`'s order. */
  predicate IsSubsequence<T(==)>(a: seq<T>, b: seq<T>)
    decreases |b|
  {
    if a == [] then true
    else if b == [] then false
    else if a[0] == b[0] then IsSubsequence(a[1..], b[1..])
    else IsSubsequence(a, b[1..])
  }

  lemma {:induction false} FilterIsSubsequence<T>(s: seq<T>, p: T -> bool)
    ensures IsSubsequence(Filter(s, p), s)
  {
    if s != [] {
      FilterIsSubsequence(s[1..], p);
      var f := Filter(s, p);
      if !p(s[0]) && f != [] {
        assert f[0] in f;
      }
    }
  }

  lemma {:induction false} FilterConcat<T>(a: seq<T>, b: seq<T>, p: T -> bool)
    ensures Filter(a + b, p) == Filter(a, p) + Filter(b, p)
  {
    if a == [] {
      assert a + b == b;
    } else {
      assert (a + b)[1..] == a[1..] + b;
      FilterConcat(a[1..], b, p);
    }
  }

  /** Filtering twice is filtering once by the conjunction. */
  lemma {:induction false} FilterFilter<T>(s: seq<T>, p: T -> bool, q: T -> bool, both: T -> bool)
    requires forall x :: x in s ==> both(x) == (p(x) && q(x))
    ensures Filter(Filter(s, p), q) == Filter(s, both)
  {
    if s != [] {
      FilterFilter(s[1..], p, q, both);
    }
  }

  /** Filters by predicates that agree on the elements of `s` give the same result. */
  lemma {:induction false} FilterExtensional<T>(s: seq<T>, p: T -> bool, q: T -> bool)
    requires forall x :: x in s ==> p(x) == q(x)
    ensures Filter(s, p) == Filter(s, q)
  {
    if s != [] {
      FilterExtensional(s[1..], p, q);
    }
  }

  /** The filter keeps every element exactly when every element satisfies the predicate. */
  lemma {:induction false} FilterKeepsAll<T>(s: seq<T>, p: T -> bool)
    ensures |Filter(s, p)| == |s| <==> forall x :: x in s ==> p(x)
  {
    if s != [] {
      FilterKeepsAll(s[1..], p);
      assert s == [s[0]] + s[1..];
    }
  }
  /** The number of elements of `s` that satisfy `p`, counted one by one. */
  function Count<T>(s: seq<T>, p: T -> bool): nat {
    if s == [] then 0 else (if p(s[0]) then 1 else 0) + Count(s[1..], p)
  }

  /** The filter keeps as many elements as satisfy the predicate. */
  lemma {:induction false} FilterCount<T>(s: seq<T>, p: T -> bool)
    ensures |Filter(s, p)| == Count(s, p)
  {
    if s != [] {
      FilterCount(s[1..], p);
    }
  }

  /** Membership in a filter, stated for a single element. */
  lemma FilterMember<T>(s: seq<T>, p: T -> bool, x: T)
    ensures x in Filter(s, p) <==> x in s && p(x)
  {
    if x in s && p(x) {
      var i :| 0 <= i < |s| && s[i] == x;
    }
    if x in Filter(s, p) {
      var r := Filter(s, p);
      var i :| 0 <= i < |r| && r[i] == x;
    }
  }

  /** `s.map(&f)`. */
  function Map<A, B>(s: seq<A>, f: A -> B): (r: seq<B>)
    ensures |r| == |s|
    ensures forall i :: 0 <= i < |s| ==> r[i] == f(s[i])
  {
    if s == [] then [] else [f(s[0])] + Map(s[1..], f)
  }

  lemma {:induction false} MapConcat<A, B>(a: seq<A>, b: seq<A>, f: A -> B)
    ensures Map(a + b, f) == Map(a, f) + Map(b, f)
  {
    if a == [] {
      assert a + b == b;
    } else {
      assert (a + b)[1..] == a[1..] + b;
      MapConcat(a[1..], b, f);
    }
  }

  /** Mapping the two halves of a partition yields, together, the image of the whole. */
  lemma {:induction false} MapPartition<A, B>(s: seq<A>, p: A -> bool, f: A -> B)
    ensures multiset(Map(Filter(s, p), f)) + multiset(Map(Filter(s, Not(p)), f)) == multiset(Map(s, f))
  {
    if s != [] {
      var x, t := s[0], s[1..];
      MapPartition(t, p, f);
      assert Map(s, f) == [f(x)] + Map(t, f);
      var q := Not(p);
      assert q(x) == !p(x);
      if p(x) {
        assert Filter(s, p) == [x] + Filter(t, p);
        assert Filter(s, q) == Filter(t, q);
        MapHead(x, Filter(t, p), f);
      } else {
        assert Filter(s, p) == Filter(t, p);
        assert Filter(s, q) == [x] + Filter(t, q);
        MapHead(x, Filter(t, q), f);
      }
    }
  }

  lemma MapHead<A, B>(x: A, t: seq<A>, f: A -> B)
    ensures Map([x] + t, f) == [f(x)] + Map(t, f)
  {
    assert ([x] + t)[1..] == t;
  }

  /** Selecting then mapping, one more element at the end. */
  lemma FilterMapSnoc<A, B>(s: seq<A>, x: A, p: A -> bool, f: A -> B)
    ensures Map(Filter(s + [x], p), f) == Map(Filter(s, p), f) + (if p(x) then [f(x)] else [])
  {
    FilterConcat(s, [x], p);
    assert [x][1..] == [];
    MapConcat(Filter(s, p), Filter([x], p), f);
  }

  /** Ruby's `detect` / `find` on a sequence, as an index: the first element that
      satisfies `p`, or `None` when no element does. */
  function FirstIndex<T>(s: seq<T>, p: T -> bool): (r: Option<nat>)
    ensures r.Some? ==> r.value < |s| && p(s[r.value])
    ensures r.Some? ==> forall j :: 0 <= j < r.value ==> !p(s[j])
    ensures r.None? ==> forall j :: 0 <= j < |s| ==> !p(s[j])
  {
    if s == [] then None
    else if p(s[0]) then Some(0)
    else
      var rest := FirstIndex(s[1..], p);
      if rest.Some? then Some(rest.value + 1) else None
  }
}
