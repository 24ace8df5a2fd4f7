/** Sequence helpers shared by the server's tag list (`Snippet.RemoveTag`) and
    the client's selected-tag list (the tag toggle): both remove the FIRST
    occurrence of a value and keep the order of everything else. */
module SeqUtil {

  /** The set of elements of a sequence. */
  function Elems<T>(s: seq<T>): set<T> {
    set x | x in s
  }

  /** No value occurs twice. */
  predicate NoDuplicates<T(==)>(s: seq<T>) {
    forall i, j :: 0 <= i < j < |s| ==> s[i] != s[j]
  }

  /** Index of the first occurrence of `x` (what Go's loop `for i, t := range`
      with an early return, and JavaScript's `indexOf`, find). */
  function FirstIndex<T(==)>(s: seq<T>, x: T): (i: nat)
    requires x in s
    ensures i < |s| && s[i] == x && x !in s[..i]
  {
    if s[0] == x then 0
    else
      assert s == [s[0]] + s[1..];
      var j := FirstIndex(s[1..], x);
      assert s[..j + 1] == [s[0]] + s[1..][..j];
      j + 1
  }

  /** An index holding `x` with no `x` before it is the first index. */
  lemma FirstIndexIs<T>(s: seq<T>, x: T, i: nat)
    requires i < |s| && s[i] == x
    requires forall k | 0 <= k < i :: s[k] != x
    ensures FirstIndex(s, x) == i
  {
    var j := FirstIndex(s, x);
    forall k | 0 <= k < j ensures s[k] != x {
      assert s[k] == s[..j][k];
    }
  }

  /** `s` without its first occurrence of `x`; `s` itself when `x` is absent. */
  function RemoveFirst<T(==)>(s: seq<T>, x: T): seq<T> {
    if s == [] then []
    else if s[0] == x then s[1..]
    else [s[0]] + RemoveFirst(s[1..], x)
  }

  /** Removing a present value deletes exactly the slot of its first occurrence:
      the elements before and after it keep their order. */
  lemma {:induction false} RemoveFirstAt<T>(s: seq<T>, x: T)
    requires x in s
    ensures RemoveFirst(s, x) == s[..FirstIndex(s, x)] + s[FirstIndex(s, x) + 1..]
    ensures |RemoveFirst(s, x)| == |s| - 1
  {
    if s[0] != x {
      var t := s[1..];
      assert s == [s[0]] + t;
      RemoveFirstAt(t, x);
      var j := FirstIndex(t, x);
      assert FirstIndex(s, x) == j + 1;
      calc {
        RemoveFirst(s, x);
        [s[0]] + RemoveFirst(t, x);
        [s[0]] + (t[..j] + t[j + 1..]);
        { assert s[..j + 1] == [s[0]] + t[..j]; assert s[j + 2..] == t[j + 1..]; }
        s[..j + 1] + s[j + 2..];
      }
    }
  }

  /** Removing an absent value changes nothing. */
  lemma {:induction false} RemoveFirstAbsent<T>(s: seq<T>, x: T)
    requires x !in s
    ensures RemoveFirst(s, x) == s
  {
    if s != [] {
      assert x !in s[1..];
      RemoveFirstAbsent(s[1..], x);
      assert s == [s[0]] + s[1..];
    }
  }

  /** Exactly one copy of `x` leaves the multiset when `x` is present. */
  lemma {:induction false} RemoveFirstMultiset<T>(s: seq<T>, x: T)
    ensures multiset(RemoveFirst(s, x)) == multiset(s) - multiset{x}
  {
    if s != [] {
      assert s == [s[0]] + s[1..];
      RemoveFirstMultiset(s[1..], x);
    }
  }

  /** Removing one element keeps a duplicate-free sequence duplicate-free and,
      there, takes `x` out of the element set. */
  lemma RemoveFirstNoDuplicates<T>(s: seq<T>, x: T)
    requires NoDuplicates(s)
    ensures NoDuplicates(RemoveFirst(s, x))
    ensures Elems(RemoveFirst(s, x)) == Elems(s) - {x}
  {
    if x in s {
      RemoveFirstAt(s, x);
      SpliceNoDuplicates(s, FirstIndex(s, x));
    } else {
      RemoveFirstAbsent(s, x);
    }
  }

  /** Cutting slot `i` out of a duplicate-free sequence leaves it
      duplicate-free, with exactly `s[i]` gone from its elements. */
  lemma SpliceNoDuplicates<T>(s: seq<T>, i: nat)
    requires NoDuplicates(s) && i < |s|
    ensures NoDuplicates(s[..i] + s[i + 1..])
    ensures Elems(s[..i] + s[i + 1..]) == Elems(s) - {s[i]}
  {
    var r := s[..i] + s[i + 1..];
    assert |r| == |s| - 1;
    assert forall k | 0 <= k < i :: r[k] == s[k];
    assert forall k | i <= k < |r| :: r[k] == s[k + 1];
    forall y | y in r ensures y in s && y != s[i] {
      var k :| 0 <= k < |r| && r[k] == y;
      if k >= i {
        assert r[k] == s[k + 1];
      }
    }
    forall y | y in s && y != s[i] ensures y in r {
      var k :| 0 <= k < |s| && s[k] == y;
      if k < i {
        assert r[k] == y;
      } else {
        assert r[k - 1] == y;
      }
    }
  }

  /** Appending a value that is not yet present keeps the sequence free of
      duplicates. */
  lemma AppendFreshNoDuplicates<T>(s: seq<T>, x: T)
    requires NoDuplicates(s) && x !in s
    ensures NoDuplicates(s + [x])
  {
  }

  /** Appending a fresh value and then removing it gives back the original. */
  lemma {:induction false} RemoveFirstOfAppended<T>(s: seq<T>, x: T)
    requires x !in s
    ensures RemoveFirst(s + [x], x) == s
  {
    if s != [] {
      assert (s + [x])[1..] == s[1..] + [x];
      assert x !in s[1..];
      RemoveFirstOfAppended(s[1..], x);
      assert s == [s[0]] + s[1..];
    }
  }
}
