/** Skip/limit windows over an ordered result, and the page arithmetic built on them. */
module Paging {

  function Min(a: int, b: int): int
  {
    if a <= b then a else b
  }

  /** MongoDB's `skip(skip).limit(limit)` applied to an already ordered result. */
  function Window<T>(s: seq<T>, skip: nat, limit: nat): (r: seq<T>)
    ensures |r| == if skip >= |s| then 0 else Min(limit, |s| - skip)
    ensures forall i :: 0 <= i < |r| ==> r[i] == s[skip + i]
  {
    if skip >= |s| then [] else s[skip..Min(skip + limit, |s|)]
  }

  /** Every item of a window comes from the sequence it was cut from. */
  lemma WindowInside<T>(s: seq<T>, skip: nat, limit: nat)
    ensures forall i :: 0 <= i < |Window(s, skip, limit)| ==> Window(s, skip, limit)[i] in s
  {
    var w := Window(s, skip, limit);
    forall i | 0 <= i < |w|
      ensures w[i] in s
    {
      assert w[i] == s[skip + i];
    }
  }

  /** `Math.ceil(total / size)`: the least number of pages of `size` that hold `total` items. */
  function TotalPages(total: nat, size: nat): (n: nat)
    requires size > 0
    ensures n * size >= total
    ensures n > 0 ==> (n - 1) * size < total
  {
    var n := (total + size - 1) / size;
    var rem := (total + size - 1) % size;
    assert total + size - 1 == n * size + rem && 0 <= rem < size;
    assert n > 0 ==> (n - 1) * size == n * size - size;
    n
  }

  /** The feed's `hasMore` flag: items remain after the first `page` pages. */
  predicate HasMore(page: int, size: nat, total: nat)
  {
    page * size < total
  }

  /** `hasMore` holds exactly on the pages before the last one. */
  lemma HasMoreIffBeforeLastPage(page: int, size: nat, total: nat)
    requires page >= 1 && size > 0
    ensures HasMore(page, size, total) <==> page < TotalPages(total, size)
  {
    var n := TotalPages(total, size);
    if page < n {
      assert page <= n - 1;
      MulMono(page, n - 1, size);
    } else {
      MulMono(n, page, size);
    }
  }

  lemma MulMono(a: int, b: int, c: nat)
    requires a <= b
    ensures a * c <= b * c
  {
  }

  lemma MulSucc(a: nat, c: nat)
    ensures (a + 1) * c == a * c + c
  {
  }

  /** The first `skip` items followed by the next window are the first `skip + limit` items. */
  lemma PrefixThenWindow<T>(s: seq<T>, skip: nat, limit: nat)
    ensures s[..Min(skip, |s|)] + Window(s, skip, limit) == s[..Min(skip + limit, |s|)]
  {
    if skip < |s| {
      assert s[..Min(skip + limit, |s|)] == s[..skip] + s[skip..Min(skip + limit, |s|)];
    }
  }

  /** Pages `1..n` of size `size`, concatenated in order. */
  function Pages<T>(s: seq<T>, size: nat, n: nat): seq<T>
  {
    if n == 0 then [] else Pages(s, size, n - 1) + Window(s, (n - 1) * size, size)
  }

  /** The first `n` pages are exactly the first `n * size` items. */
  lemma {:induction false} PagesArePrefix<T>(s: seq<T>, size: nat, n: nat)
    ensures Pages(s, size, n) == s[..Min(n * size, |s|)]
  {
    if n > 0 {
      PagesArePrefix(s, size, n - 1);
      var a := (n - 1) * size;
      var b := n * size;
      MulSucc(n - 1, size);
      assert b == a + size;
      PrefixThenWindow(s, a, size);
    }
  }

  /** Concatenating every page from 1 to `totalPages` yields the whole ordered result. */
  lemma PagesCoverAll<T>(s: seq<T>, size: nat)
    requires size > 0
    ensures Pages(s, size, TotalPages(|s|, size)) == s
  {
    PagesArePrefix(s, size, TotalPages(|s|, size));
  }

  /** A page past the last one is empty and reports no more items. */
  lemma PageBeyondLastIsEmpty<T>(s: seq<T>, size: nat, page: nat)
    requires size > 0 && page > TotalPages(|s|, size)
    ensures Window(s, (page - 1) * size, size) == []
    ensures !HasMore(page, size, |s|)
  {
    MulMono(TotalPages(|s|, size), page - 1, size);
    HasMoreIffBeforeLastPage(page, size, |s|);
  }
}
