/** Python's `list.sort(key=...)` with a string key: a stable sort, modelled as
    an insertion sort and pinned down by its contract (sorted, a permutation,
    and equal keys keep their relative order). */
module Sorting {
  import opened Text
  import opened Seqs

  /** No element has a key smaller than an element before it. */
  predicate SortedBy<T>(s: seq<T>, key: T -> string)
  {
    forall i, j :: 0 <= i < j < |s| ==> !LexLess(key(s[j]), key(s[i]))
  }

  function HasKey<T>(key: T -> string, k: string): T -> bool
  {
    x => key(x) == k
  }

  /** The elements of `s` whose key is `k`, in their order in `s`. */
  function WithKey<T>(s: seq<T>, key: T -> string, k: string): seq<T>
  {
    Filter(s, HasKey(key, k))
  }

  /** Places `x` after every element whose key is not greater than its own. */
  function Insert<T>(x: T, s: seq<T>, key: T -> string): (r: seq<T>)
    ensures multiset(r) == multiset(s) + multiset{x}
    decreases |s|
  {
    if |s| == 0 || LexLess(key(x), key(s[0])) then [x] + s
    else
      assert s == [s[0]] + s[1..];
      [s[0]] + Insert(x, s[1..], key)
  }

  /** `sorted(s, key=key)`. */
  function SortBy<T>(s: seq<T>, key: T -> string): (r: seq<T>)
    ensures |r| == |s|
    ensures SortedBy(r, key)
    ensures multiset(r) == multiset(s)
    ensures forall k :: WithKey(r, key, k) == WithKey(s, key, k)
    decreases |s|
  {
    if |s| == 0 then []
    else
      var front := s[..|s| - 1];
      var x := s[|s| - 1];
      var sorted := SortBy(front, key);
      assert s == front + [x];
      InsertKeepsSorted(x, sorted, key);
      InsertIsStable(x, sorted, key);
      WithKeySnoc(front, x, key);
      assert |Insert(x, sorted, key)| == |multiset(Insert(x, sorted, key))|;
      Insert(x, sorted, key)
  }

  lemma {:induction false} InsertKeepsSorted<T>(x: T, s: seq<T>, key: T -> string)
    requires SortedBy(s, key)
    ensures SortedBy(Insert(x, s, key), key)
    decreases |s|
  {
    var r := Insert(x, s, key);
    if |s| == 0 {
    } else if LexLess(key(x), key(s[0])) {
      forall j | 0 <= j < |s|
        ensures !LexLess(key(s[j]), key(x))
      {
        LexLessTransitive(key(s[j]), key(x), key(s[0]));
        LexLessIrreflexive(key(s[0]));
      }
    } else {
      var rest := Insert(x, s[1..], key);
      InsertKeepsSorted(x, s[1..], key);
      forall y | y in rest
        ensures !LexLess(key(y), key(s[0]))
      {
        assert y in multiset(rest);
      }
      assert r == [s[0]] + rest;
      forall i, j | 0 <= i < j < |r|
        ensures !LexLess(key(r[j]), key(r[i]))
      {
        if i > 0 {
          assert r[i] == rest[i - 1] && r[j] == rest[j - 1];
        } else {
          assert r[j] in rest;
        }
      }
    }
  }

  lemma FilterCons<T>(x: T, s: seq<T>, p: T -> bool)
    ensures Filter([x] + s, p) == (if p(x) then [x] else []) + Filter(s, p)
  {
    assert ([x] + s)[1..] == s;
  }

  lemma WithKeySnoc<T>(s: seq<T>, x: T, key: T -> string)
    ensures forall k :: WithKey(s + [x], key, k) == WithKey(s, key, k) + (if key(x) == k then [x] else [])
  {
    forall k
      ensures WithKey(s + [x], key, k) == WithKey(s, key, k) + (if key(x) == k then [x] else [])
    {
      FilterConcat(s, [x], HasKey(key, k));
      FilterCons(x, [], HasKey(key, k));
      assert [x] + [] == [x];
    }
  }

  /** Inserting `x` adds it after the elements already sharing its key. */
  lemma InsertIsStable<T>(x: T, s: seq<T>, key: T -> string)
    requires SortedBy(s, key)
    ensures forall k :: WithKey(Insert(x, s, key), key, k) == WithKey(s, key, k) + (if key(x) == k then [x] else [])
  {
    forall k
      ensures WithKey(Insert(x, s, key), key, k) == WithKey(s, key, k) + (if key(x) == k then [x] else [])
    {
      InsertIsStableAt(x, s, key, k);
    }
  }

  lemma {:induction false} InsertIsStableAt<T>(x: T, s: seq<T>, key: T -> string, k: string)
    requires SortedBy(s, key)
    ensures WithKey(Insert(x, s, key), key, k) == WithKey(s, key, k) + (if key(x) == k then [x] else [])
    decreases |s|
  {
    if |s| == 0 {
      FilterCons(x, s, HasKey(key, k));
    } else if LexLess(key(x), key(s[0])) {
      if key(x) == k {
        NoneBelowHead(s, key, k);
      }
      InsertBeforeHead(x, s, key, k);
    } else {
      SortedTail(s, key);
      InsertIsStableAt(x, s[1..], key, k);
      InsertPastHead(x, s, key, k);
    }
  }

  lemma InsertBeforeHead<T>(x: T, s: seq<T>, key: T -> string, k: string)
    requires |s| > 0 && LexLess(key(x), key(s[0]))
    requires key(x) == k ==> forall j :: 0 <= j < |s| ==> !HasKey(key, k)(s[j])
    ensures WithKey(Insert(x, s, key), key, k) == WithKey(s, key, k) + (if key(x) == k then [x] else [])
  {
    var p := HasKey(key, k);
    FilterCons(x, s, p);
    if key(x) == k {
      FilterEmpty(s, p);
    }
  }

  lemma InsertPastHead<T>(x: T, s: seq<T>, key: T -> string, k: string)
    requires |s| > 0 && !LexLess(key(x), key(s[0]))
    requires WithKey(Insert(x, s[1..], key), key, k) == WithKey(s[1..], key, k) + (if key(x) == k then [x] else [])
    ensures WithKey(Insert(x, s, key), key, k) == WithKey(s, key, k) + (if key(x) == k then [x] else [])
  {
    InsertUnfold(x, s, key);
    FilterPastHead(s, Insert(x, s, key), Insert(x, s[1..], key), HasKey(key, k), if key(x) == k then [x] else []);
  }

  lemma InsertUnfold<T>(x: T, s: seq<T>, key: T -> string)
    requires |s| > 0 && !LexLess(key(x), key(s[0]))
    ensures Insert(x, s, key) == [s[0]] + Insert(x, s[1..], key)
  {
  }

  /** A sequence that starts like `s` and continues with `rest` filters to
      what `s` does plus whatever `rest` adds to the rest of `s`. */
  lemma FilterPastHead<T>(s: seq<T>, r: seq<T>, rest: seq<T>, p: T -> bool, tail: seq<T>)
    requires |s| > 0 && r == [s[0]] + rest
    requires Filter(rest, p) == Filter(s[1..], p) + tail
    ensures Filter(r, p) == Filter(s, p) + tail
  {
    FilterSplitHead(s[0], rest, s[1..], p, tail);
    assert [s[0]] + s[1..] == s;
  }

  lemma FilterSplitHead<T>(y: T, a: seq<T>, b: seq<T>, p: T -> bool, tail: seq<T>)
    requires Filter(a, p) == Filter(b, p) + tail
    ensures Filter([y] + a, p) == Filter([y] + b, p) + tail
  {
    FilterCons(y, a, p);
    FilterCons(y, b, p);
    AppendShift(if p(y) then [y] else [], Filter(a, p), Filter(b, p), tail);
  }

  lemma AppendShift<T>(h: seq<T>, a: seq<T>, b: seq<T>, tail: seq<T>)
    requires a == b + tail
    ensures h + a == (h + b) + tail
  {
  }

  lemma SortedTail<T>(s: seq<T>, key: T -> string)
    requires |s| > 0 && SortedBy(s, key)
    ensures SortedBy(s[1..], key)
  {
    forall i, j | 0 <= i < j < |s| - 1
      ensures !LexLess(key(s[1..][j]), key(s[1..][i]))
    {
      assert s[1..][i] == s[i + 1] && s[1..][j] == s[j + 1];
    }
  }

  /** In a sorted sequence no element has a key below the first one's. */
  lemma NoneBelowHead<T>(s: seq<T>, key: T -> string, k: string)
    requires |s| > 0 && SortedBy(s, key) && LexLess(k, key(s[0]))
    ensures forall j :: 0 <= j < |s| ==> !HasKey(key, k)(s[j])
  {
    forall j | 0 <= j < |s|
      ensures key(s[j]) != k
    {
      LexLessIrreflexive(key(s[0]));
    }
  }

  /** Sortedness and per-key order determine the result: any two sequences that
      are sorted and list each key's elements in the same order are equal. So
      `SortBy` is exactly Python's stable sort, whatever algorithm computes it. */
  lemma {:induction false} StableSortUnique<T>(a: seq<T>, b: seq<T>, key: T -> string)
    requires SortedBy(a, key) && SortedBy(b, key)
    requires forall k :: WithKey(a, key, k) == WithKey(b, key, k)
    ensures a == b
    decreases |a|
  {
    if |a| > 0 {
      NonEmptyAlike(a, b, key);
    }
    if |b| > 0 {
      NonEmptyAlike(b, a, key);
    }
    if |a| > 0 && |b| > 0 {
      HeadsAgree(a, b, key);
      TailsAgree(a, b, key);
      SortedTail(a, key);
      SortedTail(b, key);
      StableSortUnique(a[1..], b[1..], key);
      assert a == [a[0]] + a[1..] && b == [b[0]] + b[1..];
    }
  }

  /** A sequence with the same elements per key as a non-empty one is not
      empty. */
  lemma NonEmptyAlike<T>(a: seq<T>, b: seq<T>, key: T -> string)
    requires |a| > 0
    requires forall k :: WithKey(a, key, k) == WithKey(b, key, k)
    ensures |b| > 0
  {
    FilterCons(a[0], a[1..], HasKey(key, key(a[0])));
    assert a == [a[0]] + a[1..];
    assert WithKey(b, key, key(a[0])) != [];
  }

  /** Two sorted sequences with the same elements per key start alike: each
      head has the smallest key of both, and is the first with that key. */
  lemma HeadsAgree<T>(a: seq<T>, b: seq<T>, key: T -> string)
    requires |a| > 0 && |b| > 0
    requires SortedBy(a, key) && SortedBy(b, key)
    requires forall k :: WithKey(a, key, k) == WithKey(b, key, k)
    ensures a[0] == b[0]
  {
    var ka, kb := key(a[0]), key(b[0]);
    FilterCons(a[0], a[1..], HasKey(key, ka));
    assert a == [a[0]] + a[1..];
    FilterCons(b[0], b[1..], HasKey(key, kb));
    assert b == [b[0]] + b[1..];
    // a[0] occurs in b, so its key is not below b's smallest, and vice versa.
    assert a[0] in WithKey(b, key, ka);
    var j :| 0 <= j < |b| && b[j] == a[0];
    LexLessIrreflexive(kb);
    assert !LexLess(ka, kb);
    assert b[0] in WithKey(a, key, kb);
    var i :| 0 <= i < |a| && a[i] == b[0];
    LexLessIrreflexive(ka);
    assert !LexLess(kb, ka);
    LexLessTotal(ka, kb);
    assert a[0] == WithKey(a, key, ka)[0] == WithKey(b, key, ka)[0] == b[0];
  }

  /** Dropping the same head from both keeps the elements per key equal. */
  lemma TailsAgree<T>(a: seq<T>, b: seq<T>, key: T -> string)
    requires |a| > 0 && |b| > 0 && a[0] == b[0]
    requires forall k :: WithKey(a, key, k) == WithKey(b, key, k)
    ensures forall k :: WithKey(a[1..], key, k) == WithKey(b[1..], key, k)
  {
    forall k
      ensures WithKey(a[1..], key, k) == WithKey(b[1..], key, k)
    {
      var p := HasKey(key, k);
      var head := if p(a[0]) then [a[0]] else [];
      FilterCons(a[0], a[1..], p);
      FilterCons(b[0], b[1..], p);
      assert a == [a[0]] + a[1..] && b == [b[0]] + b[1..];
      assert WithKey(a, key, k) == WithKey(b, key, k);
      assert head + WithKey(a[1..], key, k) == head + WithKey(b[1..], key, k);
      assert (head + WithKey(a[1..], key, k))[|head|..] == WithKey(a[1..], key, k);
      assert (head + WithKey(b[1..], key, k))[|head|..] == WithKey(b[1..], key, k);
    }
  }

  /** Sortedness depends on the keys alone. */
  lemma SortedBySameKeys<A, B>(a: seq<A>, keyA: A -> string, b: seq<B>, keyB: B -> string)
    requires |a| == |b| && SortedBy(a, keyA)
    requires forall i :: 0 <= i < |a| ==> keyA(a[i]) == keyB(b[i])
    ensures SortedBy(b, keyB)
  {
  }
}
