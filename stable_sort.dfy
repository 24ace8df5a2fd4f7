/** The sort behind every `[...snippets].sort(cmp)` and `tags.toSorted(cmp)` of
    the client. Section 23.1.3.30 of ECMA-262 (2023 edition) requires
    Array.prototype.sort to be stable, and leaves the order implementation-defined
    when the comparator is not consistent. The model sorts with a stable
    insertion sort on sequences (so the caller's array is never touched) and
    proves that, for a comparator that is a total preorder on the elements
    being sorted, the result is a permutation, ordered, stable, and the only
    such sequence, so any stable algorithm yields the same. */
module StableSort {

  function Sign(x: int): int {
    if x < 0 then -1 else if x > 0 then 1 else 0
  }

  /** `cmp` behaves as a consistent comparator on the values of `dom`: swapping
      the arguments flips the sign, and "not after" is transitive. Together
      these make `cmp(a, b) <= 0` a total preorder. */
  ghost predicate PreorderOn<T>(cmp: (T, T) -> int, dom: seq<T>) {
    && (forall a, b :: a in dom && b in dom ==> Sign(cmp(a, b)) == -Sign(cmp(b, a)))
    && (forall a, b, c :: a in dom && b in dom && c in dom && cmp(a, b) <= 0 && cmp(b, c) <= 0 ==> cmp(a, c) <= 0)
  }

  /** No element is placed after one it compares greater than. */
  ghost predicate SortedBy<T>(cmp: (T, T) -> int, s: seq<T>) {
    forall i, j :: 0 <= i < j < |s| ==> cmp(s[i], s[j]) <= 0
  }

  /** The elements of `s` that compare equal to `x`, in their order in `s`.
      A sort is stable when it keeps every such subsequence as it was. */
  function Ties<T>(s: seq<T>, cmp: (T, T) -> int, x: T): seq<T> {
    if s == [] then []
    else Ties(s[..|s| - 1], cmp, x) + (if cmp(s[|s| - 1], x) == 0 then [s[|s| - 1]] else [])
  }

  /** Inserts `x` after the last element of `r` that is not greater than it. */
  function Insert<T>(r: seq<T>, x: T, cmp: (T, T) -> int): seq<T> {
    if r == [] then [x]
    else if cmp(r[|r| - 1], x) > 0 then Insert(r[..|r| - 1], x, cmp) + [r[|r| - 1]]
    else r + [x]
  }

  /** Stable insertion sort: a fresh sequence, the input is left alone. */
  function Sort<T>(s: seq<T>, cmp: (T, T) -> int): seq<T> {
    if s == [] then [] else Insert(Sort(s[..|s| - 1], cmp), s[|s| - 1], cmp)
  }

  lemma {:induction false} InsertPermutation<T>(r: seq<T>, x: T, cmp: (T, T) -> int)
    ensures multiset(Insert(r, x, cmp)) == multiset(r) + multiset{x}
  {
    if r != [] && cmp(r[|r| - 1], x) > 0 {
      InsertPermutation(r[..|r| - 1], x, cmp);
      assert r == r[..|r| - 1] + [r[|r| - 1]];
    }
  }

  /** The result holds exactly the input's elements, each as often. */
  lemma {:induction false} SortPermutation<T>(s: seq<T>, cmp: (T, T) -> int)
    ensures multiset(Sort(s, cmp)) == multiset(s)
    ensures |Sort(s, cmp)| == |s|
  {
    if s != [] {
      SortPermutation(s[..|s| - 1], cmp);
      InsertPermutation(Sort(s[..|s| - 1], cmp), s[|s| - 1], cmp);
      assert s == s[..|s| - 1] + [s[|s| - 1]];
    }
    assert |multiset(Sort(s, cmp))| == |Sort(s, cmp)|;
  }

  lemma MemberOfPermutation<T>(a: seq<T>, b: seq<T>, e: T)
    requires multiset(a) == multiset(b)
    ensures e in a <==> e in b
  {
    assert e in a <==> e in multiset(a);
    assert e in b <==> e in multiset(b);
  }

  lemma {:induction false} InsertSorted<T>(r: seq<T>, x: T, cmp: (T, T) -> int, dom: seq<T>)
    requires PreorderOn(cmp, dom)
    requires forall e :: e in r ==> e in dom
    requires x in dom
    requires SortedBy(cmp, r)
    ensures SortedBy(cmp, Insert(r, x, cmp))
  {
    if r == [] {
    } else {
      var n := |r|;
      var last := r[n - 1];
      var r' := r[..n - 1];
      if cmp(last, x) > 0 {
        InsertSorted(r', x, cmp, dom);
        var m := Insert(r', x, cmp);
        InsertPermutation(r', x, cmp);
        assert last in dom;
        assert Sign(cmp(last, x)) == -Sign(cmp(x, last));
        forall e | e in m ensures cmp(e, last) <= 0 {
          BelowLast(r, x, cmp, m, e);
        }
        AppendGreatest(m, last, cmp);
        assert Insert(r, x, cmp) == m + [last];
      } else {
        AppendAfterLast(r, x, cmp, dom);
      }
    }
  }

  /** Every element of the insertion into the prefix sits below the last
      element, which compares greater than the inserted one. */
  lemma BelowLast<T>(r: seq<T>, x: T, cmp: (T, T) -> int, m: seq<T>, e: T)
    requires |r| > 0 && SortedBy(cmp, r)
    requires cmp(r[|r| - 1], x) > 0
    requires Sign(cmp(r[|r| - 1], x)) == -Sign(cmp(x, r[|r| - 1]))
    requires multiset(m) == multiset(r[..|r| - 1] + [x])
    requires e in m
    ensures cmp(e, r[|r| - 1]) <= 0
  {
    var r' := r[..|r| - 1];
    MemberOfPermutation(m, r' + [x], e);
    if e in r' {
      var k :| 0 <= k < |r'| && r'[k] == e;
      assert r[k] == e;
    } else {
      assert e == x;
      assert Sign(cmp(r[|r| - 1], x)) == 1;
    }
  }

  /** Appending an element no smaller than the rest keeps the order. */
  lemma AppendGreatest<T>(m: seq<T>, last: T, cmp: (T, T) -> int)
    requires SortedBy(cmp, m)
    requires forall e | e in m :: cmp(e, last) <= 0
    ensures SortedBy(cmp, m + [last])
  {
    forall i, j | 0 <= i < j < |m| + 1 ensures cmp((m + [last])[i], (m + [last])[j]) <= 0 {
      if j == |m| {
        assert (m + [last])[i] == m[i] && m[i] in m;
      } else {
        assert (m + [last])[i] == m[i] && (m + [last])[j] == m[j];
      }
    }
  }

  /** Appending after a last element that is no greater keeps the order. */
  lemma AppendAfterLast<T>(r: seq<T>, x: T, cmp: (T, T) -> int, dom: seq<T>)
    requires PreorderOn(cmp, dom)
    requires forall e :: e in r ==> e in dom
    requires x in dom
    requires |r| > 0 && SortedBy(cmp, r)
    requires cmp(r[|r| - 1], x) <= 0
    ensures SortedBy(cmp, r + [x])
  {
    var last := r[|r| - 1];
    forall i | 0 <= i < |r| - 1 ensures cmp(r[i], x) <= 0 {
      assert cmp(r[i], last) <= 0;
      assert r[i] in dom && last in dom;
    }
    forall i, j | 0 <= i < j < |r| + 1 ensures cmp((r + [x])[i], (r + [x])[j]) <= 0 {
      if j == |r| {
        assert (r + [x])[i] == r[i];
      } else {
        assert (r + [x])[i] == r[i] && (r + [x])[j] == r[j];
      }
    }
  }

  /** Ordered by the comparator, when it is consistent on the input. */
  lemma {:induction false} SortSorted<T>(s: seq<T>, cmp: (T, T) -> int)
    requires PreorderOn(cmp, s)
    ensures SortedBy(cmp, Sort(s, cmp))
  {
    if s != [] {
      var s' := s[..|s| - 1];
      assert PreorderOn(cmp, s') by {
        assert forall e :: e in s' ==> e in s;
      }
      SortSorted(s', cmp);
      SortPermutation(s', cmp);
      forall e | e in Sort(s', cmp) ensures e in s {
        MemberOfPermutation(Sort(s', cmp), s', e);
      }
      InsertSorted(Sort(s', cmp), s[|s| - 1], cmp, s);
    }
  }

  lemma TiesSnoc<T>(a: seq<T>, y: T, cmp: (T, T) -> int, t: T)
    ensures Ties(a + [y], cmp, t) == Ties(a, cmp, t) + (if cmp(y, t) == 0 then [y] else [])
  {
    assert (a + [y])[..|a|] == a;
  }

  /** Two values tied with the same value are tied with each other. */
  lemma TiedWithSame<T>(cmp: (T, T) -> int, dom: seq<T>, a: T, b: T, t: T)
    requires PreorderOn(cmp, dom)
    requires a in dom && b in dom && t in dom
    requires cmp(a, t) == 0 && cmp(b, t) == 0
    ensures cmp(a, b) <= 0
  {
    assert Sign(cmp(b, t)) == -Sign(cmp(t, b));
  }

  lemma PrefixSortedIn<T>(r: seq<T>, k: nat, cmp: (T, T) -> int, dom: seq<T>)
    requires k <= |r|
    requires SortedBy(cmp, r) && forall e :: e in r ==> e in dom
    ensures SortedBy(cmp, r[..k]) && forall e :: e in r[..k] ==> e in dom
  {
    assert forall e :: e in r[..k] ==> e in r;
  }

  lemma {:induction false} InsertTies<T>(r: seq<T>, x: T, cmp: (T, T) -> int, dom: seq<T>, t: T)
    requires PreorderOn(cmp, dom)
    requires forall e :: e in r ==> e in dom
    requires x in dom && t in dom
    requires SortedBy(cmp, r)
    ensures Ties(Insert(r, x, cmp), cmp, t) == Ties(r, cmp, t) + (if cmp(x, t) == 0 then [x] else [])
  {
    if r == [] {
      TiesSnoc([], x, cmp, t);
    } else if cmp(r[|r| - 1], x) > 0 {
      var r' := r[..|r| - 1];
      PrefixSortedIn(r, |r| - 1, cmp, dom);
      InsertTies(r', x, cmp, dom, t);
      if cmp(x, t) == 0 && cmp(r[|r| - 1], t) == 0 {
        TiedWithSame(cmp, dom, r[|r| - 1], x, t);
      }
      InsertTiesShift(r, x, cmp, t);
    } else {
      TiesSnoc(r, x, cmp, t);
    }
  }

  /** The step of `InsertTies` where `x` moves left past a greater last element. */
  lemma InsertTiesShift<T>(r: seq<T>, x: T, cmp: (T, T) -> int, t: T)
    requires r != [] && cmp(r[|r| - 1], x) > 0
    requires !(cmp(x, t) == 0 && cmp(r[|r| - 1], t) == 0)
    requires Ties(Insert(r[..|r| - 1], x, cmp), cmp, t) == Ties(r[..|r| - 1], cmp, t) + (if cmp(x, t) == 0 then [x] else [])
    ensures Ties(Insert(r, x, cmp), cmp, t) == Ties(r, cmp, t) + (if cmp(x, t) == 0 then [x] else [])
  {
    var last := r[|r| - 1];
    var r' := r[..|r| - 1];
    var m := Insert(r', x, cmp);
    var tx := if cmp(x, t) == 0 then [x] else [];
    var tl := if cmp(last, t) == 0 then [last] else [];
    TiesSnoc(m, last, cmp, t);
    assert Ties(r, cmp, t) == Ties(r', cmp, t) + tl;
    SwapTail(Ties(r', cmp, t), tx, tl);
  }

  lemma SwapTail<T>(a: seq<T>, b: seq<T>, c: seq<T>)
    requires b == [] || c == []
    ensures a + b + c == a + c + b
  {
  }

  lemma {:induction false} SortStableOn<T>(s: seq<T>, cmp: (T, T) -> int, dom: seq<T>, t: T)
    requires PreorderOn(cmp, dom)
    requires forall e :: e in s ==> e in dom
    requires t in dom
    ensures Ties(Sort(s, cmp), cmp, t) == Ties(s, cmp, t)
  {
    if s != [] {
      var s' := s[..|s| - 1];
      var y := s[|s| - 1];
      assert s == s' + [y];
      assert PreorderOn(cmp, s') by {
        assert forall e :: e in s' ==> e in dom;
      }
      SortPermutation(s', cmp);
      forall e | e in Sort(s', cmp) ensures e in dom {
        MemberOfPermutation(Sort(s', cmp), s', e);
      }
      SortSorted(s', cmp);
      InsertTies(Sort(s', cmp), y, cmp, dom, t);
      TiesSnoc(s', y, cmp, t);
      SortStableOn(s', cmp, dom, t);
    }
  }

  /** Stable: the elements that compare equal to any given input value come
      out in the order they went in. */
  lemma SortStable<T>(s: seq<T>, cmp: (T, T) -> int, t: T)
    requires PreorderOn(cmp, s)
    requires t in s
    ensures Ties(Sort(s, cmp), cmp, t) == Ties(s, cmp, t)
  {
    SortStableOn(s, cmp, s, t);
  }

  /** Sorting an already ordered sequence gives it back unchanged; in
      particular a comparator that ties every pair keeps the input order. */
  lemma {:induction false} SortOfSorted<T>(s: seq<T>, cmp: (T, T) -> int)
    requires SortedBy(cmp, s)
    ensures Sort(s, cmp) == s
  {
    if s != [] {
      var s' := s[..|s| - 1];
      assert SortedBy(cmp, s') by {
        forall i, j | 0 <= i < j < |s'| ensures cmp(s'[i], s'[j]) <= 0 {
          assert s'[i] == s[i] && s'[j] == s[j];
        }
      }
      SortOfSorted(s', cmp);
      if s' != [] {
        assert cmp(s'[|s'| - 1], s[|s| - 1]) <= 0 by {
          assert s'[|s'| - 1] == s[|s| - 2];
        }
      }
      assert s == s' + [s[|s| - 1]];
    }
  }

  /** Sorting twice is the same as sorting once. */
  lemma SortIdempotent<T>(s: seq<T>, cmp: (T, T) -> int)
    requires PreorderOn(cmp, s)
    ensures Sort(Sort(s, cmp), cmp) == Sort(s, cmp)
  {
    SortSorted(s, cmp);
    SortOfSorted(Sort(s, cmp), cmp);
  }

  /** Two ordered arrangements of the same multiset with the same tie
      subsequences are equal. */
  lemma {:induction false} SortedArrangementUnique<T>(r: seq<T>, q: seq<T>, cmp: (T, T) -> int, dom: seq<T>)
    requires PreorderOn(cmp, dom)
    requires forall e :: e in r ==> e in dom
    requires multiset(r) == multiset(q)
    requires SortedBy(cmp, r) && SortedBy(cmp, q)
    requires forall t {:trigger Ties(r, cmp, t)} :: t in r ==> Ties(r, cmp, t) == Ties(q, cmp, t)
    ensures r == q
  {
    assert |r| == |multiset(r)| == |multiset(q)| == |q|;
    if r != [] {
      var n := |r|;
      var a, b := r[n - 1], q[n - 1];
      assert a in r;
      MemberOfPermutation(r, q, b);
      assert a in dom && b in dom;
      assert Sign(cmp(a, b)) == -Sign(cmp(b, a));
      assert Sign(cmp(a, a)) == -Sign(cmp(a, a));
      assert Sign(cmp(b, b)) == -Sign(cmp(b, b));
      SameLast(r, q, cmp);
      DropLastMultiset(r, q);
      DropLastTies(r, q, cmp);
      PrefixSortedIn(r, n - 1, cmp, dom);
      PrefixSortedIn(q, n - 1, cmp, q);
      SortedArrangementUnique(r[..n - 1], q[..n - 1], cmp, dom);
      SameInitAndLast(r, q);
    }
  }

  /** Both arrangements end with the same element: the two last elements
      are each not after the other, so they tie, and the tie class of the
      first ends with each of them. */
  lemma SameLast<T>(r: seq<T>, q: seq<T>, cmp: (T, T) -> int)
    requires multiset(r) == multiset(q) && |r| == |q| > 0
    requires SortedBy(cmp, r) && SortedBy(cmp, q)
    requires Ties(r, cmp, r[|r| - 1]) == Ties(q, cmp, r[|r| - 1])
    requires Sign(cmp(r[|r| - 1], q[|q| - 1])) == -Sign(cmp(q[|q| - 1], r[|r| - 1]))
    requires cmp(r[|r| - 1], r[|r| - 1]) == 0 && cmp(q[|q| - 1], q[|q| - 1]) == 0
    ensures r[|r| - 1] == q[|q| - 1]
  {
    var n := |r|;
    var a, b := r[n - 1], q[n - 1];
    MemberOfPermutation(r, q, a);
    MemberOfPermutation(r, q, b);
    NotAfterLast(q, a, cmp);
    NotAfterLast(r, b, cmp);
    LastOfTies(r, cmp, a);
    LastOfTies(q, cmp, a);
  }

  /** In an ordered sequence every element is not after the last one. */
  lemma NotAfterLast<T>(s: seq<T>, e: T, cmp: (T, T) -> int)
    requires SortedBy(cmp, s) && e in s
    requires cmp(s[|s| - 1], s[|s| - 1]) == 0
    ensures cmp(e, s[|s| - 1]) <= 0
  {
    var j :| 0 <= j < |s| && s[j] == e;
  }

  /** The tie class of `t` ends with the last element when that ties with `t`. */
  lemma LastOfTies<T>(s: seq<T>, cmp: (T, T) -> int, t: T)
    requires s != [] && cmp(s[|s| - 1], t) == 0
    ensures Ties(s, cmp, t) != [] && Ties(s, cmp, t)[|Ties(s, cmp, t)| - 1] == s[|s| - 1]
  {
  }

  /** Dropping a common last element keeps the multiset equality. */
  lemma DropLastMultiset<T>(r: seq<T>, q: seq<T>)
    requires |r| == |q| > 0 && r[|r| - 1] == q[|q| - 1]
    requires multiset(r) == multiset(q)
    ensures multiset(r[..|r| - 1]) == multiset(q[..|q| - 1])
  {
    var a := r[|r| - 1];
    var r', q' := r[..|r| - 1], q[..|q| - 1];
    assert r == r' + [a];
    assert q == q' + [a];
    assert multiset(r) == multiset(r') + multiset{a};
    assert multiset(q) == multiset(q') + multiset{a};
    assert multiset(r') == multiset(r) - multiset{a};
    assert multiset(q') == multiset(q) - multiset{a};
  }

  /** Dropping a common last element keeps the tie subsequences equal. */
  lemma DropLastTies<T>(r: seq<T>, q: seq<T>, cmp: (T, T) -> int)
    requires |r| == |q| > 0 && r[|r| - 1] == q[|q| - 1]
    requires forall t {:trigger Ties(r, cmp, t)} :: t in r ==> Ties(r, cmp, t) == Ties(q, cmp, t)
    ensures forall t {:trigger Ties(r[..|r| - 1], cmp, t)} :: t in r[..|r| - 1] ==> Ties(r[..|r| - 1], cmp, t) == Ties(q[..|q| - 1], cmp, t)
  {
    var r', q' := r[..|r| - 1], q[..|q| - 1];
    forall t {:trigger Ties(r', cmp, t)} | t in r' ensures Ties(r', cmp, t) == Ties(q', cmp, t) {
      var i :| 0 <= i < |r'| && r'[i] == t;
      assert r[i] == t;
      DropLastTiesAt(r, q, cmp, t);
    }
  }

  /** The same for one tie class. */
  lemma DropLastTiesAt<T>(r: seq<T>, q: seq<T>, cmp: (T, T) -> int, t: T)
    requires |r| == |q| > 0 && r[|r| - 1] == q[|q| - 1]
    requires Ties(r, cmp, t) == Ties(q, cmp, t)
    ensures Ties(r[..|r| - 1], cmp, t) == Ties(q[..|q| - 1], cmp, t)
  {
    var a := r[|r| - 1];
    CancelTail(Ties(r[..|r| - 1], cmp, t), Ties(q[..|q| - 1], cmp, t), if cmp(a, t) == 0 then [a] else []);
  }

  lemma SameInitAndLast<T>(r: seq<T>, q: seq<T>)
    requires |r| == |q| > 0
    requires r[..|r| - 1] == q[..|q| - 1] && r[|r| - 1] == q[|q| - 1]
    ensures r == q
  {
    assert r == r[..|r| - 1] + [r[|r| - 1]];
    assert q == q[..|q| - 1] + [q[|q| - 1]];
  }

  lemma CancelTail<T>(a: seq<T>, b: seq<T>, x: seq<T>)
    requires a + x == b + x
    ensures a == b
  {
    assert |a| == |b|;
    assert a == (a + x)[..|a|];
    assert b == (b + x)[..|b|];
  }

  /** The sort is the only ordered, stable permutation of its input, so any
      stable sorting algorithm returns exactly `Sort(s, cmp)`. */
  lemma StableSortIsUnique<T>(s: seq<T>, r: seq<T>, cmp: (T, T) -> int)
    requires PreorderOn(cmp, s)
    requires multiset(r) == multiset(s)
    requires SortedBy(cmp, r)
    requires forall t {:trigger Ties(r, cmp, t)} :: t in s ==> Ties(r, cmp, t) == Ties(s, cmp, t)
    ensures r == Sort(s, cmp)
  {
    SortPermutation(s, cmp);
    SortSorted(s, cmp);
    forall t | t in r ensures Ties(r, cmp, t) == Ties(Sort(s, cmp), cmp, t) {
      MemberOfPermutation(r, s, t);
      SortStable(s, cmp, t);
    }
    forall e | e in r ensures e in s {
      MemberOfPermutation(r, s, e);
    }
    SortedArrangementUnique(r, Sort(s, cmp), cmp, s);
  }
}
