/**
 * The article workflow: the public listing and the lookup by slug (queries
 * over the article table), and creation, partial update and soft deletion
 * (writes to an in-memory store, guarded by an ownership check).
 */
module ArticleService {
  import opened Domain
  import opened Listing
  import opened Slug
  import opened Text

  // ---------------------------------------------------------------------
  // Public listing
  // ---------------------------------------------------------------------

  /** Query parameters of the public listing; each may be absent. */
  datatype ListRequest = ListRequest(
    q: Option<string>,
    sortBy: Option<SortKey>,
    sortOrder: Option<Direction>,
    perPage: Option<int>,
    page: Option<int>)

  function SortKeyOf(req: ListRequest): SortKey
  {
    if req.sortBy.Some? then req.sortBy.value else ByCreatedAt
  }

  function DirectionOf(req: ListRequest): Direction
  {
    if req.sortOrder.Some? then req.sortOrder.value else Desc
  }

  function PerPageOf(req: ListRequest): int
  {
    if req.perPage.Some? then req.perPage.value else DefaultPerPage
  }

  /** A page size, when given, is positive. */
  predicate ValidRequest(req: ListRequest)
  {
    req.perPage.Some? ==> req.perPage.value >= 1
  }

  /**
   * The search term is applied only when present and not "empty" in PHP's
   * sense, which also counts the string "0" as empty.
   */
  predicate SearchActive(q: Option<string>)
  {
    q.Some? && q.value != "" && q.value != "0"
  }

  predicate MatchesSearch(a: Article, q: Option<string>)
  {
    !SearchActive(q) || ContainsIgnoringCase(a.title, q.value) || ContainsIgnoringCase(a.content, q.value)
  }

  /** Rows the listing for search term `q` may show, in id order. */
  function ListedRows(rows: seq<Article>, q: Option<string>): (r: seq<Article>)
    ensures forall a :: a in r <==> a in rows && Visible(a) && MatchesSearch(a, q)
    ensures forall a :: multiset(r)[a] == if Visible(a) && MatchesSearch(a, q) then multiset(rows)[a] else 0
  {
    Where(rows, a => Visible(a) && MatchesSearch(a, q))
  }

  /** The whole listing for a request, every page of it, in display order. */
  function OrderedListing(rows: seq<Article>, q: Option<string>, key: SortKey, dir: Direction): (r: seq<Article>)
    ensures Sorted(r, key, dir)
    ensures multiset(r) == multiset(ListedRows(rows, q))
  {
    SortBy(ListedRows(rows, q), key, dir)
  }

  /**
   * One page of the published, live articles that match the search term,
   * ordered on the requested key and direction (default: newest first,
   * 10 per page).
   */
  function GetPublishedArticles(rows: seq<Article>, req: ListRequest): (p: Page)
    requires ValidRequest(req)
    ensures forall a :: a in p.items ==> a in rows && Visible(a) && MatchesSearch(a, req.q)
    ensures Sorted(p.items, SortKeyOf(req), DirectionOf(req))
    ensures |p.items| <= PerPageOf(req)
    ensures p.perPage == PerPageOf(req) && p.currentPage == CurrentPage(req.page)
    ensures p.total == |ListedRows(rows, req.q)|
  {
    var ordered := OrderedListing(rows, req.q, SortKeyOf(req), DirectionOf(req));
    SortedPage(ordered, PerPageOf(req), CurrentPage(req.page), SortKeyOf(req), DirectionOf(req));
    var p := Paginate(ordered, PerPageOf(req), CurrentPage(req.page));
    assert |ordered| == |multiset(ordered)|;
    assert forall a :: a in p.items ==> a in multiset(ordered);
    p
  }

  /** Page `n` of a request is page `n` of its ordered listing. */
  lemma PageOfListing(rows: seq<Article>, req: ListRequest, n: int)
    requires ValidRequest(req) && n >= 1
    ensures GetPublishedArticles(rows, req.(page := Some(n))).items
            == Paginate(OrderedListing(rows, req.q, SortKeyOf(req), DirectionOf(req)), PerPageOf(req), n).items
  {
    var req' := req.(page := Some(n));
    assert req'.q == req.q && req'.sortBy == req.sortBy && req'.sortOrder == req.sortOrder;
    assert req'.perPage == req.perPage && CurrentPage(req'.page) == n;
  }

  /** Every listed article is on some page of the listing. */
  lemma ListedArticleIsOnSomePage(rows: seq<Article>, req: ListRequest, a: Article)
    requires ValidRequest(req)
    requires a in rows && Visible(a) && MatchesSearch(a, req.q)
    ensures exists n :: n >= 1 && a in GetPublishedArticles(rows, req.(page := Some(n))).items
  {
    var perPage := PerPageOf(req);
    assert perPage >= 1;
    var ordered := OrderedListing(rows, req.q, SortKeyOf(req), DirectionOf(req));
    assert a in multiset(ListedRows(rows, req.q));
    assert a in ordered;
    var k :| 0 <= k < |ordered| && ordered[k] == a;
    var n := PageOf(perPage, k);
    PageHolds(ordered, perPage, k);
    PageOfListing(rows, req, n);
    assert a == GetPublishedArticles(rows, req.(page := Some(n))).items[Slot(perPage, k)];
  }

  /** With no parameters the listing is the first 10 articles, newest first. */
  lemma DefaultListing(rows: seq<Article>)
    ensures var p := GetPublishedArticles(rows, ListRequest(None, None, None, None, None));
            && p.perPage == 10 && p.currentPage == 1 && |p.items| <= 10
            && Sorted(p.items, ByCreatedAt, Desc)
  {
  }

  // ---------------------------------------------------------------------
  // Lookups
  // ---------------------------------------------------------------------

  /** The live article with this slug (the earliest by id); NotFound when there is none. */
  function GetArticleBySlug(rows: seq<Article>, slug: string): (r: Result<Article>)
    ensures r.Ok? ==> r.value in rows && Live(r.value) && r.value.slug == slug
    ensures r.Err? ==> r.error == NotFound && forall a :: a in rows && Live(a) ==> a.slug != slug
  {
    if rows == [] then Err(NotFound)
    else if Live(rows[0]) && rows[0].slug == slug then Ok(rows[0])
    else GetArticleBySlug(rows[1..], slug)
  }

  /** The live article with this id; NotFound when it is absent or soft-deleted. */
  function FindLive(rows: seq<Article>, id: int): (r: Result<Article>)
    ensures r.Ok? ==> r.value in rows && Live(r.value) && r.value.id == id
    ensures r.Err? ==> r.error == NotFound && forall a :: a in rows && a.id == id ==> !Live(a)
  {
    if rows == [] then Err(NotFound)
    else if rows[0].id == id && Live(rows[0]) then Ok(rows[0])
    else FindLive(rows[1..], id)
  }

  /** A soft-deleted row leaves every listing page and every lookup, though it stays in the table. */
  lemma DeletedArticleIsHidden(rows: seq<Article>, i: int, req: ListRequest, slug: string)
    requires 0 <= i < |rows| && ValidRequest(req)
    ensures var gone := rows[i].(deleted := true);
            var rows' := rows[i := gone];
            && gone in rows'
            && gone !in GetPublishedArticles(rows', req).items
            && GetArticleBySlug(rows', slug) != Ok(gone)
            && FindLive(rows', rows[i].id) != Ok(gone)
  {
    var gone := rows[i].(deleted := true);
    var rows' := rows[i := gone];
    assert rows'[i] == gone;
    assert !Visible(gone) && !Live(gone);
  }

  // ---------------------------------------------------------------------
  // Partial update
  // ---------------------------------------------------------------------

  /**
   * The article after a partial update: present fields replace the stored
   * ones, absent fields keep them; a new title without an explicit slug
   * regenerates the slug; the category set is replaced wholesale.
   */
  function Patched(a: Article, p: ArticlePatch): (b: Article)
    ensures b.id == a.id && b.authorId == a.authorId && b.createdAt == a.createdAt && b.deleted == a.deleted
    ensures b.title == (if p.title.Some? then p.title.value else a.title)
    ensures b.content == (if p.content.Some? then p.content.value else a.content)
    ensures b.status == (if p.status.Some? then p.status.value else a.status)
    ensures b.categories == (if p.categoryIds.Some? then p.categoryIds.value else a.categories)
    ensures p.slug.Some? ==> b.slug == p.slug.value
    ensures p.slug.None? && p.title.Some? ==> b.slug == Slugify(p.title.value)
    ensures p.slug.None? && p.title.None? ==> b.slug == a.slug
  {
    a.(title := if p.title.Some? then p.title.value else a.title,
       slug := if p.slug.Some? then p.slug.value
               else if p.title.Some? then Slugify(p.title.value)
               else a.slug,
       content := if p.content.Some? then p.content.value else a.content,
       status := if p.status.Some? then p.status.value else a.status,
       categories := if p.categoryIds.Some? then p.categoryIds.value else a.categories)
  }

  /** Applying the same update twice has the effect of applying it once. */
  lemma PatchIdempotent(a: Article, p: ArticlePatch)
    ensures Patched(Patched(a, p), p) == Patched(a, p)
  {
  }

  /** An update with no fields changes nothing. */
  lemma EmptyPatchIsIdentity(a: Article)
    ensures Patched(a, ArticlePatch(None, None, None, None, None)) == a
  {
  }

  // ---------------------------------------------------------------------
  // The store
  // ---------------------------------------------------------------------

  /** Every id in `ids` names one of the first `n` categories. */
  predicate RefsWithin(ids: set<int>, n: int)
  {
    forall c :: c in ids ==> 1 <= c <= n
  }

  /**
   * The article and category tables. Ids are assigned in insertion order
   * from 1 and rows are never removed (deletion only sets the tombstone),
   * so row `i` of each table has id `i + 1`.
   */
  class ArticleStore {
    var articles: seq<Article>
    var categories: seq<Category>

    ghost predicate Valid()
      reads this
    {
      && (forall i :: 0 <= i < |articles| ==> articles[i].id == i + 1)
      && (forall i :: 0 <= i < |categories| ==> categories[i].id == i + 1)
      && (forall i :: 0 <= i < |articles| ==> RefsWithin(articles[i].categories, |categories|))
    }

    constructor (categories: seq<Category>)
      requires forall i :: 0 <= i < |categories| ==> categories[i].id == i + 1
      ensures Valid()
      ensures this.articles == [] && this.categories == categories
    {
      this.articles := [];
      this.categories := categories;
    }

    /** In a valid store the live row with id `id` sits at position `id - 1`. */
    lemma FoundAtPosition(id: int)
      requires Valid() && FindLive(articles, id).Ok?
      ensures 1 <= id <= |articles| && articles[id - 1] == FindLive(articles, id).value
    {
      var a := FindLive(articles, id).value;
      var i :| 0 <= i < |articles| && articles[i] == a;
    }

    /**
     * A soft-deleted article is final: no later update or delete can find it,
     * whoever asks.
     */
    lemma DeletedIsFinal(id: int)
      requires Valid() && 1 <= id <= |articles| && articles[id - 1].deleted
      ensures FindLive(articles, id) == Err(NotFound)
    {
      if FindLive(articles, id).Ok? {
        FoundAtPosition(id);
      }
    }

    /**
     * Inserts a new article written by `authorId` at time `now`: the slug is
     * the given one or derived from the title, the status defaults to draft,
     * and the given categories are attached.
     */
    method CreateArticle(data: NewArticle, authorId: int, now: int) returns (a: Article)
      requires Valid()
      requires data.categoryIds.Some? ==> RefsWithin(data.categoryIds.value, |categories|)
      modifies this
      ensures Valid()
      ensures articles == old(articles) + [a] && categories == old(categories)
      ensures a.id == |old(articles)| + 1 && Live(a)
      ensures a.title == data.title && a.content == data.content
      ensures a.slug == (if data.slug.Some? then data.slug.value else Slugify(data.title))
      ensures a.status == (if data.status.Some? then data.status.value else Draft)
      ensures a.authorId == authorId && a.createdAt == now
      ensures a.categories == (if data.categoryIds.Some? then data.categoryIds.value else {})
    {
      var slug := if data.slug.Some? then data.slug.value else Slugify(data.title);
      var status := if data.status.Some? then data.status.value else Draft;
      a := Article(|articles| + 1, data.title, slug, data.content, status, authorId, now, false, {});
      articles := articles + [a];
      if data.categoryIds.Some? {
        a := a.(categories := data.categoryIds.value);
        articles := articles[|articles| - 1 := a];
      }
    }

    /**
     * Partial update of article `id` by user `userId`. Fails with NotFound
     * when there is no live row with that id and with Forbidden when the user
     * is not its author; either failure leaves the store untouched.
     */
    method UpdateArticle(id: int, patch: ArticlePatch, userId: int) returns (r: Result<Article>)
      requires Valid()
      requires patch.categoryIds.Some? ==> RefsWithin(patch.categoryIds.value, |categories|)
      modifies this
      ensures Valid() && categories == old(categories)
      ensures r == Err(NotFound) <==> FindLive(old(articles), id).Err?
      ensures r == Err(Forbidden) <==>
                FindLive(old(articles), id).Ok? && FindLive(old(articles), id).value.authorId != userId
      ensures r.Ok? <==> FindLive(old(articles), id).Ok? && FindLive(old(articles), id).value.authorId == userId
      ensures r.Err? ==> articles == old(articles)
      ensures r.Ok? ==> && 1 <= id <= |old(articles)|
                        && old(articles)[id - 1].authorId == userId
                        && r.value == Patched(old(articles)[id - 1], patch)
                        && articles == old(articles)[id - 1 := r.value]
    {
      var found := FindLive(articles, id);
      if found.Err? {
        r := Err(NotFound);
        return;
      }
      var article := found.value;
      if article.authorId != userId {
        r := Err(Forbidden);
        return;
      }
      FoundAtPosition(id);
      if patch.title.Some? {
        article := article.(title := patch.title.value);
        if patch.slug.None? {
          article := article.(slug := Slugify(patch.title.value));
        }
      }
      if patch.slug.Some? {
        article := article.(slug := patch.slug.value);
      }
      if patch.content.Some? {
        article := article.(content := patch.content.value);
      }
      if patch.status.Some? {
        article := article.(status := patch.status.value);
      }
      articles := articles[id - 1 := article];
      if patch.categoryIds.Some? {
        article := article.(categories := patch.categoryIds.value);
        articles := articles[id - 1 := article];
      }
      r := Ok(article);
    }

    /**
     * Soft-deletes article `id` on behalf of user `userId`: the same
     * NotFound and Forbidden checks as an update, then the tombstone is set
     * and the row (with its categories) is kept.
     */
    method DeleteArticle(id: int, userId: int) returns (o: Outcome)
      requires Valid()
      modifies this
      ensures Valid() && categories == old(categories)
      ensures o == Failed(NotFound) <==> FindLive(old(articles), id).Err?
      ensures o == Failed(Forbidden) <==>
                FindLive(old(articles), id).Ok? && FindLive(old(articles), id).value.authorId != userId
      ensures o.Done? <==> FindLive(old(articles), id).Ok? && FindLive(old(articles), id).value.authorId == userId
      ensures o.Failed? ==> articles == old(articles)
      ensures o.Done? ==> && 1 <= id <= |old(articles)|
                          && old(articles)[id - 1].authorId == userId
                          && articles == old(articles)[id - 1 := old(articles)[id - 1].(deleted := true)]
    {
      var found := FindLive(articles, id);
      if found.Err? {
        o := Failed(NotFound);
        return;
      }
      if found.value.authorId != userId {
        o := Failed(Forbidden);
        return;
      }
      FoundAtPosition(id);
      articles := articles[id - 1 := found.value.(deleted := true)];
      o := Done;
    }
  }
}
