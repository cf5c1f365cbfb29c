/** Sequence helpers shared by the naming and planning modules: the list
    comprehensions `[f(x) for x in s]` and `[x for x in s if p(x)]`. */
module Seqs {

  /** `[f(x) for x in s]`. */
  function Map<A, B>(s: seq<A>, f: A -> B): seq<B>
  {
    seq(|s|, i requires 0 <= i < |s| => f(s[i]))
  }

  /** `[x for x in s if p(x)]`: the elements of `s` that satisfy `p`, in order. */
  function Filter<T>(s: seq<T>, p: T -> bool): (r: seq<T>)
    ensures |r| <= |s|
    ensures forall x :: x in r ==> x in s && p(x)
    decreases |s|
  {
    if |s| == 0 then [] else (if p(s[0]) then [s[0]] else []) + Filter(s[1..], p)
  }

  /** Filtering distributes over concatenation. */
  lemma {:induction false} FilterConcat<T>(a: seq<T>, b: seq<T>, p: T -> bool)
    ensures Filter(a + b, p) == Filter(a, p) + Filter(b, p)
    decreases |a|
  {
    if |a| == 0 {
      assert a + b == b;
    } else {
      assert (a + b)[1..] == a[1..] + b;
      FilterConcat(a[1..], b, p);
    }
  }

  /** A filter is empty exactly when no element passes it. */
  lemma {:induction false} FilterEmpty<T>(s: seq<T>, p: T -> bool)
    ensures Filter(s, p) == [] <==> forall i :: 0 <= i < |s| ==> !p(s[i])
    decreases |s|
  {
    if |s| > 0 {
      FilterEmpty(s[1..], p);
      assert forall i :: 1 <= i < |s| ==> s[i] == s[1..][i - 1];
    }
  }

  /** The head of a non-empty filter is the first element of `s` that passes it. */
  lemma {:induction false} FilterHead<T>(s: seq<T>, p: T -> bool) returns (i: nat)
    requires Filter(s, p) != []
    ensures i < |s| && p(s[i]) && Filter(s, p)[0] == s[i]
    ensures forall j :: 0 <= j < i ==> !p(s[j])
    decreases |s|
  {
    if p(s[0]) {
      i := 0;
    } else {
      var k := FilterHead(s[1..], p);
      i := k + 1;
    }
  }

  /** Mapping then filtering by a property of the image is filtering by the
      matching property of the source, then mapping. */
  lemma {:induction false} FilterMap<A, B>(s: seq<A>, f: A -> B, p: A -> bool, q: B -> bool)
    requires forall i :: 0 <= i < |s| ==> q(f(s[i])) == p(s[i])
    ensures Filter(Map(s, f), q) == Map(Filter(s, p), f)
    decreases |s|
  {
    if |s| > 0 {
      assert Map(s, f)[1..] == Map(s[1..], f);
      FilterMap(s[1..], f, p, q);
      var rest := Filter(s[1..], p);
      if p(s[0]) {
        assert Map([s[0]] + rest, f) == [f(s[0])] + Map(rest, f);
      }
    }
  }

  /** Two sequences that agree position by position on the filter and on the
      projection give the same projected filter. */
  lemma {:induction false} FilterMapPointwise<A, B, C>(a: seq<A>, b: seq<B>, p: A -> bool, q: B -> bool,
                                                       f: A -> C, g: B -> C)
    requires |a| == |b|
    requires forall i :: 0 <= i < |a| ==> p(a[i]) == q(b[i])
    requires forall i :: 0 <= i < |a| && p(a[i]) ==> f(a[i]) == g(b[i])
    ensures Map(Filter(a, p), f) == Map(Filter(b, q), g)
    decreases |a|
  {
    if |a| > 0 {
      assert forall i :: 0 <= i < |a| - 1 ==> a[1..][i] == a[i + 1] && b[1..][i] == b[i + 1];
      FilterMapPointwise(a[1..], b[1..], p, q, f, g);
      var ra, rb := Filter(a[1..], p), Filter(b[1..], q);
      if p(a[0]) {
        assert Filter(a, p) == [a[0]] + ra && Filter(b, q) == [b[0]] + rb;
        assert Map([a[0]] + ra, f) == [f(a[0])] + Map(ra, f);
        assert Map([b[0]] + rb, g) == [g(b[0])] + Map(rb, g);
      } else {
        assert Filter(a, p) == ra && Filter(b, q) == rb;
      }
    }
  }

  /** Filters that agree position by position keep as many elements. */
  lemma {:induction false} FilterLengthPointwise<A, B>(a: seq<A>, b: seq<B>, p: A -> bool, q: B -> bool)
    requires |a| == |b|
    requires forall i :: 0 <= i < |a| ==> p(a[i]) == q(b[i])
    ensures |Filter(a, p)| == |Filter(b, q)|
    decreases |a|
  {
    if |a| > 0 {
      assert forall i :: 0 <= i < |a| - 1 ==> a[1..][i] == a[i + 1] && b[1..][i] == b[i + 1];
      FilterLengthPointwise(a[1..], b[1..], p, q);
    }
  }
}
