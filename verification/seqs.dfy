/** Sequence utilities: filtering, first-match removal, and a stable descending sort. */
module Seqs {

  /** `a` can be obtained from `b` by deleting elements (greedy left-to-right matching). */
  predicate IsSubseq<T(==)>(a: seq<T>, b: seq<T>)
    decreases |b|
  {
    |a| == 0 || (|b| > 0 && (if a[0] == b[0] then IsSubseq(a[1..], b[1..]) else IsSubseq(a, b[1..])))
  }

  /** The elements of `s` that satisfy `p`, in their original order (JavaScript `Array.filter`). */
  function Filter<T(==,!new)>(s: seq<T>, p: T -> bool): (r: seq<T>)
    ensures |r| <= |s|
    ensures forall x :: x in r <==> x in s && p(x)
    ensures forall x :: multiset(r)[x] == if p(x) then multiset(s)[x] else 0
    ensures IsSubseq(r, s)
  {
    if |s| == 0 then []
    else
      var rest := Filter(s[1..], p);
      assert s == [s[0]] + s[1..];
      if p(s[0]) then
        assert ([s[0]] + rest)[1..] == rest;
        [s[0]] + rest
      else
        assert |rest| > 0 ==> rest[0] in rest && rest[0] != s[0];
        rest
  }

  /** The elements of `s` mapped through `f`, in order (JavaScript `Array.map`). */
  function Map<T, U>(s: seq<T>, f: T -> U): (r: seq<U>)
    ensures |r| == |s|
    ensures forall i :: 0 <= i < |s| ==> r[i] == f(s[i])
  {
    if |s| == 0 then [] else [f(s[0])] + Map(s[1..], f)
  }

  /** The position of the first occurrence of `x` in `s`. */
  function IndexOf<T(==)>(s: seq<T>, x: T): (i: nat)
    requires x in s
    ensures i < |s| && s[i] == x
    ensures forall k :: 0 <= k < i ==> s[k] != x
  {
    if s[0] == x then 0 else 1 + IndexOf(s[1..], x)
  }

  /** `s` without its first occurrence of `x`; `s` itself when `x` does not occur. */
  function RemoveFirst<T(==)>(s: seq<T>, x: T): (r: seq<T>)
    ensures x !in s ==> r == s
    ensures x in s ==> |r| == |s| - 1 && r == s[..IndexOf(s, x)] + s[IndexOf(s, x) + 1..]
    ensures multiset(r) == multiset(s) - multiset{x}
    ensures IsSubseq(r, s)
  {
    if x in s then
      var i := IndexOf(s, x);
      assert s == s[..i] + [s[i]] + s[i + 1..];
      SkipOneIsSubseq(s, i);
      s[..i] + s[i + 1..]
    else
      SubseqRefl(s);
      s
  }

  lemma {:induction false} SubseqRefl<T>(s: seq<T>)
    ensures IsSubseq(s, s)
  {
    if |s| > 0 {
      SubseqRefl(s[1..]);
    }
  }

  /** Dropping the first element leaves a subsequence. */
  lemma {:induction false} TailIsSubseq<T>(s: seq<T>)
    requires |s| > 0
    ensures IsSubseq(s[1..], s)
  {
    if |s| > 1 {
      if s[1] == s[0] {
        TailIsSubseq(s[1..]);
        assert s[1..][1..] == s[2..];
      } else {
        SubseqRefl(s[1..]);
      }
    }
  }

  /** Dropping the element at `i` leaves a subsequence. */
  lemma {:induction false} SkipOneIsSubseq<T>(s: seq<T>, i: nat)
    requires i < |s|
    ensures IsSubseq(s[..i] + s[i + 1..], s)
  {
    if i == 0 {
      assert s[..0] + s[1..] == s[1..];
      TailIsSubseq(s);
    } else {
      var r := s[..i] + s[i + 1..];
      assert r[0] == s[0];
      assert r[1..] == s[1..][..i - 1] + s[1..][i..];
      SkipOneIsSubseq(s[1..], i - 1);
    }
  }

  /** `s` is ordered by `key`, largest first. */
  predicate SortedDesc<T>(s: seq<T>, key: T -> int)
  {
    forall i, j :: 0 <= i < j < |s| ==> key(s[i]) >= key(s[j])
  }

  /** An element that differs from every other position occurs exactly once. */
  lemma OccursOnce<T>(s: seq<T>, i: nat)
    requires i < |s| && forall k :: 0 <= k < |s| && k != i ==> s[k] != s[i]
    ensures multiset(s)[s[i]] == 1
  {
    var a, b := s[..i], s[i + 1..];
    assert s == a + [s[i]] + b;
    assert s[i] !in a by {
      forall k | 0 <= k < |a| ensures a[k] != s[i] { assert a[k] == s[k]; }
    }
    assert s[i] !in b by {
      forall k | 0 <= k < |b| ensures b[k] != s[i] { assert b[k] == s[i + 1 + k]; }
    }
  }

  /** Every item of a prefix comes from the whole sequence. */
  lemma PrefixInside<T>(s: seq<T>, k: nat)
    requires k <= |s|
    ensures forall i :: 0 <= i < k ==> s[..k][i] in s
  {
    forall i | 0 <= i < k
      ensures s[..k][i] in s
    {
      assert s[..k][i] == s[i];
    }
  }

  /** The head of a descending sequence has the greatest key. */
  lemma HeadIsGreatest<T>(s: seq<T>, key: T -> int, x: T)
    requires SortedDesc(s, key) && x in s
    ensures key(s[0]) >= key(x)
  {
    var j :| 0 <= j < |s| && s[j] == x;
    assert j == 0 || key(s[0]) >= key(s[j]);
  }

  /**
   * Inserts `x` into a descending sequence in front of the first element whose key does not
   * exceed its own, so that `x` precedes the elements that tie with it.
   */
  function InsertDesc<T>(x: T, s: seq<T>, key: T -> int): (r: seq<T>)
    requires SortedDesc(s, key)
    ensures SortedDesc(r, key)
    ensures multiset(r) == multiset(s) + multiset{x}
    ensures |r| == |s| + 1
    ensures r[0] == x || (|s| > 0 && r[0] == s[0])
  {
    if |s| == 0 || key(s[0]) <= key(x) then
      [x] + s
    else
      var rest := InsertDesc(x, s[1..], key);
      assert multiset(s) == multiset{s[0]} + multiset(s[1..]) by {
        assert s == [s[0]] + s[1..];
      }
      assert key(s[0]) >= key(rest[0]) by {
        if rest[0] != x {
          assert rest[0] == s[1];
        }
      }
      ConsSorted(s[0], rest, key);
      [s[0]] + rest
  }

  /** Putting an element no smaller than the head in front of a descending sequence keeps it descending. */
  lemma ConsSorted<T>(h: T, rest: seq<T>, key: T -> int)
    requires SortedDesc(rest, key) && (|rest| > 0 ==> key(h) >= key(rest[0]))
    ensures SortedDesc([h] + rest, key)
  {
    var r := [h] + rest;
    forall i, j | 0 <= i < j < |r|
      ensures key(r[i]) >= key(r[j])
    {
      if i == 0 {
        assert r[j] == rest[j - 1];
        assert j - 1 == 0 || key(rest[0]) >= key(rest[j - 1]);
      } else {
        assert r[i] == rest[i - 1] && r[j] == rest[j - 1];
      }
    }
  }

  /**
   * Sorts by `key`, largest first. Elements with equal keys keep their relative order (each
   * element is inserted in front of the equal keys of the elements after it).
   */
  function SortDesc<T>(s: seq<T>, key: T -> int): (r: seq<T>)
    ensures SortedDesc(r, key)
    ensures multiset(r) == multiset(s)
    ensures |r| == |s|
  {
    if |s| == 0 then []
    else
      assert s == [s[0]] + s[1..];
      InsertDesc(s[0], SortDesc(s[1..], key), key)
  }

  /** Sorting keeps exactly the elements it was given. */
  lemma SortDescMembers<T(!new)>(s: seq<T>, key: T -> int)
    ensures forall x :: x in SortDesc(s, key) <==> x in s
  {
    var r := SortDesc(s, key);
    forall x
      ensures x in r <==> x in s
    {
      assert x in r <==> x in multiset(r);
      assert x in s <==> x in multiset(s);
    }
  }

  /** Filtering distributes over concatenation. */
  lemma {:induction false} FilterAppend<T(!new)>(a: seq<T>, b: seq<T>, p: T -> bool)
    ensures Filter(a + b, p) == Filter(a, p) + Filter(b, p)
  {
    if |a| > 0 {
      assert (a + b)[1..] == a[1..] + b;
      FilterAppend(a[1..], b, p);
    } else {
      assert a + b == b;
    }
  }

  /** Filtering keeps a sequence whose every element passes. */
  lemma {:induction false} FilterKeepsAll<T(!new)>(s: seq<T>, p: T -> bool)
    requires forall x :: x in s ==> p(x)
    ensures Filter(s, p) == s
  {
    if |s| > 0 {
      forall x | x in s[1..]
        ensures p(x)
      {
        var i :| 0 <= i < |s[1..]| && s[1..][i] == x;
        assert s[i + 1] == x;
      }
      FilterKeepsAll(s[1..], p);
    }
  }

  /** Removing one occurrence of an element that passes the filter shortens the filtered sequence by one. */
  lemma FilterDropsOne<T(!new)>(s: seq<T>, t: seq<T>, e: T, p: T -> bool)
    requires e in s && p(e)
    requires multiset(t) == multiset(s) - multiset{e}
    ensures |Filter(t, p)| + 1 == |Filter(s, p)|
  {
    var fs := multiset(Filter(s, p));
    var ft := multiset(Filter(t, p));
    assert multiset(s)[e] > 0;
    forall x ensures fs[x] == (ft + multiset{e})[x] {
      assert fs[x] == if p(x) then multiset(s)[x] else 0;
      assert ft[x] == if p(x) then multiset(t)[x] else 0;
      assert multiset(t)[x] == multiset(s)[x] - (if x == e then 1 else 0);
    }
    assert fs == ft + multiset{e};
  }
}
