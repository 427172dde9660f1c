/** `utils.RemoveFromSlice`: drop the first element equal to an item. */
module Slices {

  /** Index of the first occurrence of `x` in `s`, or -1. */
  function FirstIndex<T(==)>(s: seq<T>, x: T): (i: int)
    ensures -1 <= i < |s|
    ensures i == -1 <==> x !in s
    ensures i >= 0 ==> s[i] == x && x !in s[..i]
  {
    if s == [] then -1
    else if s[0] == x then 0
    else
      var j := FirstIndex(s[1..], x);
      assert s[1..][..if j < 0 then 0 else j] == s[1..if j < 0 then 1 else j + 1];
      if j < 0 then -1 else j + 1
  }

  /** Specification: `s` without its first occurrence of `x`. */
  function RemoveFirst<T(==)>(s: seq<T>, x: T): seq<T> {
    if s == [] then []
    else if s[0] == x then s[1..]
    else [s[0]] + RemoveFirst(s[1..], x)
  }

  /** The loop of utils.go: scan for the item and splice it out. */
  method RemoveFromSlice<T(==)>(slice: seq<T>, item: T) returns (r: seq<T>)
    ensures r == RemoveFirst(slice, item)
  {
    for i := 0 to |slice|
      invariant item !in slice[..i]
    {
      if slice[i] == item {
        RemoveFirstAt(slice, item, i);
        r := slice[..i] + slice[i + 1..];
        return;
      }
    }
    assert slice[..|slice|] == slice;
    RemoveFirstAbsent(slice, item);
    r := slice;
  }

  /** An absent item leaves the slice unchanged. */
  lemma {:induction false} RemoveFirstAbsent<T>(s: seq<T>, x: T)
    requires x !in s
    ensures RemoveFirst(s, x) == s
  {
    if s != [] {
      RemoveFirstAbsent(s[1..], x);
    }
  }

  /** Removing an item whose first occurrence is at `i` splices out exactly position `i`. */
  lemma {:induction false} RemoveFirstAt<T>(s: seq<T>, x: T, i: nat)
    requires i < |s| && s[i] == x && x !in s[..i]
    ensures RemoveFirst(s, x) == s[..i] + s[i + 1..]
  {
    if i > 0 {
      assert s[0] != x by { assert s[..i][0] == s[0]; }
      assert s[1..][..i - 1] == s[1..i];
      RemoveFirstAt(s[1..], x, i - 1);
      assert s[..i] == [s[0]] + s[1..][..i - 1];
      assert s[i + 1..] == s[1..][i..];
    }
  }

  /** Exactly one copy of a present item goes; later duplicates and every other element stay. */
  lemma {:induction false} RemoveFirstMultiset<T>(s: seq<T>, x: T)
    ensures x in s ==> multiset(RemoveFirst(s, x)) == multiset(s) - multiset{x}
    ensures x in s ==> |RemoveFirst(s, x)| == |s| - 1
  {
    if s != [] && s[0] != x {
      RemoveFirstMultiset(s[1..], x);
      assert s == [s[0]] + s[1..];
      assert x in s ==> x in s[1..];
    } else if s != [] {
      assert s == [s[0]] + s[1..];
    }
  }

  /** Removal keeps the order of the survivors: it is `s` with one position skipped. */
  lemma {:induction false} RemoveFirstKeepsOrder<T>(s: seq<T>, x: T)
    requires x in s
    ensures var i := FirstIndex(s, x); RemoveFirst(s, x) == s[..i] + s[i + 1..]
  {
    RemoveFirstAt(s, x, FirstIndex(s, x));
  }

  /** Concatenation is associative; stated apart so that the heap-heavy proofs that
      use it need not rediscover it among their other facts. */
  lemma {:induction false} AppendAssoc<T>(a: seq<T>, b: seq<T>, c: seq<T>)
    ensures (a + b) + c == a + (b + c)
  {
  }

  /** No element occurs twice: each element is its own first occurrence. Two equal
      elements then have equal positions. */
  predicate Distinct<T(==)>(s: seq<T>) {
    forall i {:trigger s[i]} | 0 <= i < |s| :: Position(s, s[i]) == i
  }

  /** The number of elements before the first `x` in `s` (|s| when there is none). */
  function Position<T(==)>(s: seq<T>, x: T): nat {
    if s == [] || s[0] == x then 0 else Position(s[1..], x) + 1
  }

  /** An element with no copy before it is its own first occurrence. */
  lemma {:induction false} PositionAt<T>(s: seq<T>, i: nat)
    requires i < |s| && forall j | 0 <= j < i :: s[j] != s[i]
    ensures Position(s, s[i]) == i
  {
    if i > 0 {
      assert s[1..][i - 1] == s[i];
      PositionAt(s[1..], i - 1);
    }
  }

  /** Pairwise different elements make a distinct sequence. */
  lemma {:induction false} DistinctIntro<T>(s: seq<T>)
    requires forall i, j | 0 <= i < j < |s| :: s[i] != s[j]
    ensures Distinct(s)
  {
    forall i | 0 <= i < |s| ensures Position(s, s[i]) == i {
      PositionAt(s, i);
    }
  }

  /** Removing from a duplicate-free sequence removes every occurrence. */
  lemma {:induction false} DistinctHead<T>(x: T, s: seq<T>)
    requires Distinct([x] + s)
    ensures Distinct(s) && x !in s
  {
    forall i, j | 0 <= i < j < |s| ensures s[i] != s[j] {
      assert s[i] == ([x] + s)[i + 1] && s[j] == ([x] + s)[j + 1];
    }
    forall i | 0 <= i < |s| ensures s[i] != x {
      assert s[i] == ([x] + s)[i + 1];
    }
    DistinctIntro(s);
  }

  /** Dropping one position of a duplicate-free sequence leaves it duplicate-free and
      without the dropped element. */
  lemma {:induction false} DistinctSkip<T>(s: seq<T>, i: nat)
    requires Distinct(s) && i < |s|
    ensures Distinct(s[..i] + s[i + 1..]) && s[i] !in s[..i] + s[i + 1..]
  {
    var r := s[..i] + s[i + 1..];
    forall a, b | 0 <= a < b < |r| ensures r[a] != r[b] {
      var a', b' := if a < i then a else a + 1, if b < i then b else b + 1;
      assert r[a] == s[a'] && r[b] == s[b'];
    }
    DistinctIntro(r);
    forall k | 0 <= k < |r| ensures r[k] != s[i] {
      if k < i {
        assert r[k] == s[k];
      } else {
        assert r[k] == s[k + 1];
      }
    }
  }

  lemma {:induction false} RemoveFirstDistinct<T>(s: seq<T>, x: T)
    requires Distinct(s)
    ensures Distinct(RemoveFirst(s, x)) && x !in RemoveFirst(s, x)
    ensures forall y | y in s && y != x :: y in RemoveFirst(s, x)
    ensures forall y | y in RemoveFirst(s, x) :: y in s
  {
    if x in s {
      var i := FirstIndex(s, x);
      RemoveFirstAt(s, x, i);
      DistinctSkip(s, i);
      var r := RemoveFirst(s, x);
      forall y | y in s && y != x ensures y in r {
        var k :| 0 <= k < |s| && s[k] == y;
        assert r[if k < i then k else k - 1] == y;
      }
    } else {
      RemoveFirstAbsent(s, x);
    }
  }

  /** The first occurrence found by Position is an occurrence. */
  lemma {:induction false} PositionIn<T>(s: seq<T>, x: T)
    requires x in s
    ensures Position(s, x) < |s| && s[Position(s, x)] == x
  {
    if s[0] != x {
      assert x in s[1..];
      PositionIn(s[1..], x);
    }
  }

  /** Position never passes the end of the sequence. */
  lemma {:induction false} PositionBound<T>(s: seq<T>, x: T)
    ensures Position(s, x) <= |s|
  {
    if s != [] && s[0] != x {
      PositionBound(s[1..], x);
    }
  }

  /** An item no position holds has Position at the end. */
  lemma {:induction false} PositionMissing<T>(s: seq<T>, x: T)
    requires forall k | 0 <= k < |s| :: s[k] != x
    ensures Position(s, x) == |s|
  {
    if s != [] {
      assert forall k | 0 <= k < |s[1..]| :: s[1..][k] == s[k + 1];
      PositionMissing(s[1..], x);
    }
  }
}
