/** The paginated, filtered and sorted author listing (`getAllAuthors`), with
    the store's count and find replaced by functions over the collection. */
module Listing {
  import opened Models
  import opened Ordering
  import opened Http

  /** Query-string parameters of a listing request; an absent one is `None`. */
  datatype RawQuery = RawQuery(
    search: Option<string>,
    page: Option<int>,
    limit: Option<int>,
    sortBy: Option<string>,
    order: Option<string>)

  /** The parameters once their defaults are filled in. */
  datatype ListQuery = ListQuery(search: string, page: int, limit: int, sortBy: string, order: string)

  const NoParams: RawQuery := RawQuery(None, None, None, None, None)

  function OrElse<T>(o: Option<T>, default: T): T
  {
    match o
    case Some(v) => v
    case None => default
  }

  /** Page 1, five per page, sorted by name, descending, no search. */
  function WithDefaults(raw: RawQuery): (q: ListQuery)
    ensures && (raw.search.Some? ==> q.search == raw.search.value)
            && (raw.page.Some? ==> q.page == raw.page.value)
            && (raw.limit.Some? ==> q.limit == raw.limit.value)
            && (raw.sortBy.Some? ==> q.sortBy == raw.sortBy.value)
            && (raw.order.Some? ==> q.order == raw.order.value)
    ensures && (raw.search.None? ==> q.search == "")
            && (raw.page.None? ==> q.page == 1)
            && (raw.limit.None? ==> q.limit == 5)
            && (raw.sortBy.None? ==> q.sortBy == "name")
            && (raw.order.None? ==> q.order == "desc")
  {
    ListQuery(
      OrElse(raw.search, ""),
      OrElse(raw.page, 1),
      OrElse(raw.limit, 5),
      OrElse(raw.sortBy, "name"),
      OrElse(raw.order, "desc"))
  }

  function Min(a: int, b: int): int
  {
    if a <= b then a else b
  }

  /** Offset of the first document of a page: page 1 starts at offset 0 and
      each page starts `limit` after the one before it. */
  function Skip(page: int, limit: int): (skip: int)
    ensures page >= 1 && limit >= 0 ==> skip >= 0
    decreases if page >= 1 then page - 1 else 1 - page
  {
    if page == 1 then 0
    else if page > 1 then Skip(page - 1, limit) + limit
    else Skip(page + 1, limit) - limit
  }

  /** The offset is `(page - 1) * limit`, as the handler computes it. */
  lemma {:induction false} SkipIsProduct(page: int, limit: int)
    ensures Skip(page, limit) == (page - 1) * limit
    decreases if page >= 1 then page - 1 else 1 - page
  {
    if page > 1 {
      SkipIsProduct(page - 1, limit);
    } else if page < 1 {
      SkipIsProduct(page + 1, limit);
    }
  }

  lemma SkipSteps(page: int, limit: int)
    ensures Skip(1, limit) == 0
    ensures Skip(page + 1, limit) == Skip(page, limit) + limit
  {
  }

  /** Later pages never start earlier. */
  lemma {:induction false} SkipMono(a: int, b: int, limit: int)
    requires a <= b && limit >= 0
    ensures Skip(a, limit) <= Skip(b, limit)
    decreases b - a
  {
    if a < b {
      SkipMono(a, b - 1, limit);
      SkipSteps(b - 1, limit);
    }
  }

  lemma MulMono(a: int, b: int, c: int)
    requires a <= b && c >= 0
    ensures a * c <= b * c
  {
  }

  /** Number of pages of `limit` documents that `total` documents fill:
      pages 1 to `n` cover them and page `n` is not empty. */
  function TotalPages(total: nat, limit: int): (n: nat)
    requires limit > 0
    ensures Skip(n + 1, limit) >= total
    ensures n > 0 ==> Skip(n, limit) < total
    ensures n == 0 <==> total == 0
  {
    var q := (total + limit - 1) / limit;
    var rem := (total + limit - 1) % limit;
    assert q * limit + rem == total + limit - 1 && 0 <= rem < limit;
    assert (q - 1) * limit == q * limit - limit;
    SkipIsProduct(q + 1, limit);
    SkipIsProduct(q, limit);
    q
  }

  /** The page count is `ceil(total / limit)`: the least `n` with
      `n * limit >= total`. */
  lemma TotalPagesIsCeil(total: nat, limit: int, m: nat)
    requires limit > 0
    ensures var n := TotalPages(total, limit);
            n * limit >= total && (n > 0 ==> (n - 1) * limit < total)
    ensures m * limit >= total ==> TotalPages(total, limit) <= m
  {
    var n := TotalPages(total, limit);
    SkipIsProduct(n + 1, limit);
    SkipIsProduct(n, limit);
    if m * limit >= total && m < n {
      MulMono(m, n - 1, limit);
    }
  }

  /** A page is within `1..TotalPages` exactly when it starts inside the
      matching documents. */
  lemma PageInRange(page: int, total: nat, limit: int)
    requires limit > 0
    ensures 1 <= page <= TotalPages(total, limit) <==> 1 <= page && Skip(page, limit) < total
  {
    var n := TotalPages(total, limit);
    if 1 <= page <= n {
      SkipMono(page, n, limit);
    }
    if 1 <= page && n < page {
      SkipMono(n + 1, page, limit);
    }
  }

  /** Sort options: a key only when `sortBy` is on the whitelist; descending
      exactly when `order` is "desc". */
  function SortOf(sortBy: string, order: string): (r: Option<SortSpec>)
    ensures r.Some? <==> sortBy == "name" || sortBy == "dateOfBirth"
    ensures r.Some? ==> (r.value.key == ByName <==> sortBy == "name")
    ensures r.Some? ==> (r.value.dir == Descending <==> order == "desc")
  {
    var dir := if order == "desc" then Descending else Ascending;
    if sortBy == "name" then Some(SortSpec(ByName, dir))
    else if sortBy == "dateOfBirth" then Some(SortSpec(ByDateOfBirth, dir))
    else None
  }

  /** The find filter: all documents, or those whose name the search pattern
      matches. */
  datatype Filter = MatchAll | NameMatches(pattern: string)

  function FilterOf(search: string): (f: Filter)
    ensures f == MatchAll <==> search == ""
    ensures f.NameMatches? ==> f.pattern == search
  {
    if search == "" then MatchAll else NameMatches(search)
  }

  /** Whether the filter selects `a`; `nameMatches(pattern, name)` stands for
      the store's case-insensitive regular-expression test. */
  predicate Selects(f: Filter, nameMatches: (string, string) -> bool, a: Author)
  {
    match f
    case MatchAll => true
    case NameMatches(p) => nameMatches(p, a.name)
  }

  /** The documents a find with filter `f` matches, in natural order. */
  function Select(f: Filter, docs: seq<Author>, nameMatches: (string, string) -> bool): (r: seq<Author>)
    ensures |r| <= |docs|
    ensures forall a :: multiset(r)[a] == if Selects(f, nameMatches, a) then multiset(docs)[a] else 0
    ensures f == MatchAll ==> r == docs
  {
    if docs == [] then []
    else
      assert docs == [docs[0]] + docs[1..];
      (if Selects(f, nameMatches, docs[0]) then [docs[0]] else []) + Select(f, docs[1..], nameMatches)
  }

  /** The documents a find skipping `skip` and limited to `limit` returns. */
  function PageSlice(xs: seq<Author>, skip: int, limit: int): (r: seq<Author>)
    requires skip >= 0 && limit > 0
    ensures |r| == if skip < |xs| then Min(limit, |xs| - skip) else 0
    ensures forall k :: 0 <= k < |r| ==> r[k] == xs[skip + k]
  {
    if skip < |xs| then xs[skip..Min(skip + limit, |xs|)] else []
  }

  /** The handler's answer: 400 for a page out of range, or one page. */
  datatype ListResponse =
    | OutOfRange
    | Listed(authors: seq<Author>, totalPages: nat, currentPage: int, totalDocuments: nat)
  {
    function HttpStatus(): Status
    {
      if OutOfRange? then BadRequest else Ok
    }
  }

  /** Lines 33-44 of the handler: the page count, the range check and the
      page of the ordered matching documents. */
  function Respond(ordered: seq<Author>, page: int, limit: int): (r: ListResponse)
    requires limit > 0
    ensures var skip := Skip(page, limit);
            && (r.OutOfRange? <==> page < 1 || skip >= |ordered|)
            && (r.Listed? ==>
                  && r.currentPage == page
                  && r.totalDocuments == |ordered|
                  && r.totalPages == TotalPages(|ordered|, limit)
                  && 0 <= skip < |ordered|
                  && r.authors == PageSlice(ordered, skip, limit))
  {
    var totalDocuments := |ordered|;
    var totalPages := TotalPages(totalDocuments, limit);
    PageInRange(page, totalDocuments, limit);
    if page < 1 || page > totalPages then OutOfRange
    else
      SkipSteps(page, limit);
      Listed(PageSlice(ordered, Skip(page, limit), limit), totalPages, page, totalDocuments)
  }

  /** `getAllAuthors` over the author collection `docs` in natural order,
      for the query parameters `q` with their defaults filled in
      (`WithDefaults`). */
  function ListAuthors(docs: seq<Author>, q: ListQuery, nameMatches: (string, string) -> bool): (r: ListResponse)
    requires q.limit > 0
    ensures var matching := Select(FilterOf(q.search), docs, nameMatches);
            var ordered := Arrange(SortOf(q.sortBy, q.order), matching);
            var skip := Skip(q.page, q.limit);
            && (r.OutOfRange? <==> q.page < 1 || skip >= |matching|)
            && (r.Listed? ==>
                  && r.currentPage == q.page
                  && r.totalDocuments == |matching|
                  && r.totalPages == TotalPages(|matching|, q.limit)
                  && 0 <= skip < |matching|
                  && r.authors == PageSlice(ordered, skip, q.limit))
  {
    var sortOptions := SortOf(q.sortBy, q.order);
    var filter := FilterOf(q.search);
    var matching := Select(filter, docs, nameMatches);
    var ordered := Arrange(sortOptions, matching);
    Respond(ordered, q.page, q.limit)
  }

  /** When no author matches, every page is rejected, page 1 included. */
  lemma NoMatchRejectsEveryPage(docs: seq<Author>, q: ListQuery, nameMatches: (string, string) -> bool)
    requires q.limit > 0
    requires forall a :: a in docs ==> !Selects(FilterOf(q.search), nameMatches, a)
    ensures ListAuthors(docs, q, nameMatches).OutOfRange?
    ensures ListAuthors(docs, q, nameMatches).HttpStatus() == BadRequest
  {
  }

  /** A request without parameters lists the first five authors by name,
      descending, or is rejected when the collection is empty. */
  lemma DefaultListing(docs: seq<Author>, nameMatches: (string, string) -> bool)
    ensures WithDefaults(NoParams).limit > 0
    ensures ListAuthors(docs, WithDefaults(NoParams), nameMatches)
            == if docs == [] then OutOfRange
               else Listed(Arrange(Some(SortSpec(ByName, Descending)), docs)[..Min(5, |docs|)],
                           TotalPages(|docs|, 5), 1, |docs|)
  {
    var q := WithDefaults(NoParams);
    assert q == ListQuery("", 1, 5, "name", "desc");
    var matching := Select(FilterOf(q.search), docs, nameMatches);
    assert matching == docs;
    var sorted := Arrange(Some(SortSpec(ByName, Descending)), docs);
    assert SortOf(q.sortBy, q.order) == Some(SortSpec(ByName, Descending));
    assert Skip(q.page, q.limit) == 0;
    var r := ListAuthors(docs, q, nameMatches);
    if docs != [] {
      assert |sorted| == |docs|;
      assert r.Listed? && |r.authors| == Min(5, |docs|);
      forall k | 0 <= k < |r.authors| ensures r.authors[k] == sorted[k] {
      }
      assert r.authors == sorted[..Min(5, |docs|)];
    }
  }

  /** The concatenation of pages 1 to `n` of `xs`. */
  function PagesUpTo(xs: seq<Author>, limit: int, n: nat): seq<Author>
    requires limit > 0
  {
    if n == 0 then []
    else
      SkipSteps(n, limit);
      PagesUpTo(xs, limit, n - 1) + PageSlice(xs, Skip(n, limit), limit)
  }

  /** The prefix up to an offset followed by the page at that offset is the
      prefix up to the end of the page. */
  lemma PrefixThenPage(xs: seq<Author>, skip: int, limit: int)
    requires 0 <= skip && limit > 0
    ensures xs[..Min(skip, |xs|)] + PageSlice(xs, skip, limit) == xs[..Min(skip + limit, |xs|)]
  {
  }

  lemma {:induction false} PagesUpToPrefix(xs: seq<Author>, limit: int, n: nat)
    requires limit > 0
    ensures Skip(n + 1, limit) >= 0
    ensures PagesUpTo(xs, limit, n) == xs[..Min(Skip(n + 1, limit), |xs|)]
  {
    SkipSteps(n + 1, limit);
    if n > 0 {
      PagesUpToPrefix(xs, limit, n - 1);
      SkipSteps(n, limit);
      PrefixThenPage(xs, Skip(n, limit), limit);
    }
  }

  /** The matching authors in the order the store returns them. */
  function Ordered(docs: seq<Author>, q: ListQuery, nameMatches: (string, string) -> bool): seq<Author>
  {
    Arrange(SortOf(q.sortBy, q.order), Select(FilterOf(q.search), docs, nameMatches))
  }

  /** Page `n` of the listing, for `n` in `1..totalPages`, is the slice of
      the ordered matches at its offset. */
  lemma ListedPage(docs: seq<Author>, q: ListQuery, nameMatches: (string, string) -> bool, n: int)
    requires q.limit > 0 && 1 <= n <= TotalPages(|Ordered(docs, q, nameMatches)|, q.limit)
    ensures Skip(n, q.limit) >= 0
    ensures ListAuthors(docs, q.(page := n), nameMatches).Listed?
    ensures ListAuthors(docs, q.(page := n), nameMatches).authors
            == PageSlice(Ordered(docs, q, nameMatches), Skip(n, q.limit), q.limit)
  {
    var qn := q.(page := n);
    assert qn.search == q.search && qn.sortBy == q.sortBy && qn.order == q.order && qn.limit == q.limit;
    PageInRange(n, |Ordered(docs, q, nameMatches)|, q.limit);
  }

  /** Pages 1 to `totalPages` of `xs`, taken in turn, hold every element of
      `xs` exactly once and in order. */
  lemma PagesCover(xs: seq<Author>, limit: int)
    requires limit > 0
    ensures PagesUpTo(xs, limit, TotalPages(|xs|, limit)) == xs
  {
    var n := TotalPages(|xs|, limit);
    PagesUpToPrefix(xs, limit, n);
    assert xs[..Min(Skip(n + 1, limit), |xs|)] == xs;
  }
}
