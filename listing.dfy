/** Arithmetic shared by the two paged blog lists: the row window a page
    requests, the number of pages, and the excerpt shown for each post. */
module Listing {

  /** The inclusive row window `(from, to)` that page `page` (counting from 1)
      requests: `from = (page - 1) * pageSize`, `to = from + pageSize - 1`. */
  function Window(page: int, pageSize: int): (w: (int, int))
    ensures w.1 - w.0 + 1 == pageSize
    ensures page == 1 ==> w.0 == 0
  {
    var from := (page - 1) * pageSize;
    (from, from + pageSize - 1)
  }

  /** Consecutive pages request adjacent windows: no row is skipped or repeated. */
  lemma WindowsTile(page: int, pageSize: int)
    ensures Window(page + 1, pageSize).0 == Window(page, pageSize).1 + 1
  {
    assert page * pageSize == (page - 1) * pageSize + pageSize;
  }

  /** Row `k` (counting from 0) lies in the window of page `k / pageSize + 1`. */
  lemma RowOnItsPage(k: nat, pageSize: nat)
    requires pageSize > 0
    ensures Window(k / pageSize + 1, pageSize).0 <= k <= Window(k / pageSize + 1, pageSize).1
  {
    var q, m := k / pageSize, k % pageSize;
    assert k == q * pageSize + m && 0 <= m < pageSize;
    assert Window(q + 1, pageSize).0 == q * pageSize;
  }

  /** `Math.ceil(total / pageSize)`: the fewest pages of `pageSize` rows that
      hold `total` rows. */
  function PageCount(total: nat, pageSize: nat): (n: nat)
    requires pageSize > 0
    ensures total <= n * pageSize
    ensures n == 0 || (n - 1) * pageSize < total
  {
    if total == 0 then 0
    else
      var q, m := (total - 1) / pageSize, (total - 1) % pageSize;
      assert total - 1 == q * pageSize + m && m < pageSize;
      assert (q + 1) * pageSize == q * pageSize + pageSize;
      q + 1
  }

  /** No rows means no pages, and any row means at least one page. */
  lemma PageCountZero(total: nat, pageSize: nat)
    requires pageSize > 0
    ensures PageCount(total, pageSize) == 0 <==> total == 0
  {
  }

  /** At most one page exactly when the rows fit in one page. */
  lemma {:induction false} PageCountAtMostOne(total: nat, pageSize: nat)
    requires pageSize > 0
    ensures PageCount(total, pageSize) <= 1 <==> total <= pageSize
  {
    var n := PageCount(total, pageSize);
    if n >= 2 {
      var m := n - 1;
      assert m * pageSize == (m - 1) * pageSize + pageSize;
      assert (m - 1) * pageSize >= 0;
    } else {
      assert n * pageSize <= pageSize;
    }
  }

  /** `content.slice(0, 100)`: the first 100 characters, or all of a shorter text. */
  function Excerpt(content: string): (r: string)
    ensures |r| == if |content| < 100 then |content| else 100
    ensures r == content[..|r|]
  {
    if |content| < 100 then content else content[..100]
  }
}
