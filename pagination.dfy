/** The arithmetic of Django's Paginator as the list views use it (`paginate_by`, no orphans,
    an empty first page allowed) and ListView's reading of the `page` parameter. */
module Pagination {
  import opened Wrappers

  /** What the `page` parameter of a request says: absent, a number, the word "last", or
      anything else. */
  datatype PageRequest = Missing | Number(n: int) | Last | Malformed

  /** Paginator.num_pages: ceil(max(1, count) / perPage), so an empty listing has one page. */
  function NumPages(count: nat, perPage: nat): (n: nat)
    requires perPage > 0
    ensures n >= 1
    ensures (n - 1) * perPage < Max(count, 1) <= n * perPage
  {
    var hits := Max(count, 1);
    var q := (hits + perPage - 1) / perPage;
    var m := (hits + perPage - 1) % perPage;
    assert q * perPage + m == hits + perPage - 1;
    assert (q - 1) * perPage == q * perPage - perPage;
    q
  }

  /** Paginator.page(number): the slice of the listing shown on that page, or None (HTTP 404)
      when the number is outside 1..NumPages. */
  function Page<T>(s: seq<T>, number: int, perPage: nat): (r: Option<seq<T>>)
    requires perPage > 0
    ensures r.Some? <==> 1 <= number <= NumPages(|s|, perPage)
    ensures r.Some? ==> |r.value| <= perPage
    ensures r.Some? && s != [] ==> r.value != []
    ensures r.Some? ==> |r.value| == Min(perPage, |s| - (number - 1) * perPage)
  {
    if 1 <= number <= NumPages(|s|, perPage) then
      PageStart(|s|, number, perPage);
      var bottom := (number - 1) * perPage;
      Some(s[bottom..Min(bottom + perPage, |s|)])
    else
      None
  }

  /** ListView.paginate_queryset: a missing parameter is page 1, "last" is the last page, a
      number is that page, and anything else is HTTP 404 (None). */
  function PageFor<T>(s: seq<T>, request: PageRequest, perPage: nat): (r: Option<seq<T>>)
    requires perPage > 0
    ensures request.Missing? ==> r == Some(s[..Min(|s|, perPage)])
    ensures request.Last? ==> r.Some? && |r.value| <= perPage && (s != [] ==> r.value != [])
    ensures request.Last? ==> r == Page(s, NumPages(|s|, perPage), perPage)
    ensures request.Last? && s != [] ==> r.value[|r.value| - 1] == s[|s| - 1]
    ensures request.Number? ==> (r.Some? <==> 1 <= request.n <= NumPages(|s|, perPage))
    ensures request.Number? ==> r == Page(s, request.n, perPage)
    ensures request.Malformed? ==> r.None?
  {
    match request
    case Missing => FirstPage(s, perPage); Page(s, 1, perPage)
    case Number(n) => Page(s, n, perPage)
    case Last => LastPageEndsList(s, perPage); Page(s, NumPages(|s|, perPage), perPage)
    case Malformed => None
  }

  /** The context flag `is_paginated`: there is more than one page, which is exactly when the
      listing is longer than one page. */
  predicate IsPaginated(count: nat, perPage: nat)
    requires perPage > 0
    ensures IsPaginated(count, perPage) <==> count > perPage
  {
    var n := NumPages(count, perPage);
    if n > 1 then
      MulMonotone(1, n - 1, perPage);
      true
    else
      false
  }

  /** The page count the tests compute by hand: count // perPage, plus one for a partial page. */
  lemma NumPagesFormula(count: nat, perPage: nat)
    requires count > 0 && perPage > 0
    ensures NumPages(count, perPage) == count / perPage + (if count % perPage == 0 then 0 else 1)
  {
    var n := NumPages(count, perPage);
    var q := count / perPage;
    var m := count % perPage;
    assert count == q * perPage + m;
    var k := q + (if m == 0 then 0 else 1);
    assert (k - 1) * perPage < count <= k * perPage;
    if n < k {
      MulMonotone(n, k - 1, perPage);
    } else if n > k {
      MulMonotone(k, n - 1, perPage);
    }
  }

  /** The last page of a non-empty listing ends with its last item. */
  lemma LastPageEndsList<T>(s: seq<T>, perPage: nat)
    requires perPage > 0
    ensures Page(s, NumPages(|s|, perPage), perPage).Some?
    ensures s != [] ==> var p := Page(s, NumPages(|s|, perPage), perPage).value; p[|p| - 1] == s[|s| - 1]
  {
    var n := NumPages(|s|, perPage);
    assert (n - 1) * perPage + perPage == n * perPage;
  }

  /** The first page holds the first min(n, perPage) items. */
  lemma FirstPage<T>(s: seq<T>, perPage: nat)
    requires perPage > 0
    ensures Page(s, 1, perPage) == Some(s[..Min(|s|, perPage)])
  {
  }

  /** Every item of the listing is on page i / perPage + 1, at position i % perPage. */
  lemma ItemOnItsPage<T>(s: seq<T>, perPage: nat, i: nat)
    requires perPage > 0 && i < |s|
    ensures Page(s, i / perPage + 1, perPage).Some?
    ensures Page(s, i / perPage + 1, perPage).value[i % perPage] == s[i]
  {
    var k := i / perPage;
    var n := NumPages(|s|, perPage);
    assert k * perPage + i % perPage == i;
    assert k * perPage <= i;
    assert k + 1 <= n by {
      if k + 1 > n {
        assert n * perPage <= k * perPage by {
          MulMonotone(n, k, perPage);
        }
      }
    }
  }

  /** A page that exists starts inside the listing (or at 0 when it is empty). */
  lemma PageStart(count: nat, number: int, perPage: nat)
    requires perPage > 0 && 1 <= number <= NumPages(count, perPage)
    ensures 0 <= (number - 1) * perPage < Max(count, 1)
  {
    MulMonotone(number - 1, NumPages(count, perPage) - 1, perPage);
  }

  lemma MulMonotone(a: nat, b: nat, c: nat)
    requires a <= b
    ensures a * c <= b * c
  {
  }

  /** The listings that the tests page through: 15 items make 3 pages, 30 make 5, 10 and 12
      make 2, and the first page of each shows 6. */
  lemma PageCountExamples()
    ensures NumPages(15, 6) == 3 && NumPages(30, 6) == 5
    ensures NumPages(10, 6) == 2 && NumPages(12, 6) == 2
    ensures NumPages(0, 6) == 1
  {
  }
}
