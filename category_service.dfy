/**
 * The category page: a category found by its slug, together with one page
 * of the published articles tagged with it, newest first.
 */
module CategoryService {
  import opened Domain
  import opened Listing

  /** The category with this slug (the earliest by id); NotFound when there is none. */
  function FindCategory(cats: seq<Category>, slug: string): (r: Result<Category>)
    ensures r.Ok? ==> r.value in cats && r.value.slug == slug
    ensures r.Err? ==> r.error == NotFound && forall c :: c in cats ==> c.slug != slug
  {
    if cats == [] then Err(NotFound)
    else if cats[0].slug == slug then Ok(cats[0])
    else FindCategory(cats[1..], slug)
  }

  /** The category fields the page exposes. */
  datatype CategorySummary = CategorySummary(id: int, name: string, slug: string)

  datatype CategoryPage = CategoryPage(category: CategorySummary, articles: Page)

  /** A row the page of category `id` may show: live, published and tagged with `id`. */
  predicate InCategory(a: Article, id: int)
  {
    Visible(a) && id in a.categories
  }

  /** The whole listing of category `id`, every page of it, newest first. */
  function CategoryListing(rows: seq<Article>, id: int): (r: seq<Article>)
    ensures Sorted(r, ByCreatedAt, Desc)
    ensures forall a :: a in r <==> a in rows && InCategory(a, id)
    ensures forall a :: multiset(r)[a] == if InCategory(a, id) then multiset(rows)[a] else 0
  {
    var tagged := Where(rows, a => InCategory(a, id));
    var r := SortBy(tagged, ByCreatedAt, Desc);
    forall a ensures a in r <==> a in tagged {
      assert a in r <==> a in multiset(r);
      assert a in tagged <==> a in multiset(tagged);
    }
    r
  }

  /**
   * The category with slug `slug` and page `page` of its published
   * articles, `perPage` to a page; NotFound when no category has that slug.
   */
  function GetCategoryWithArticles(cats: seq<Category>, rows: seq<Article>, slug: string,
                                   page: Option<int>, perPage: int := DefaultPerPage): (r: Result<CategoryPage>)
    requires perPage >= 1
    ensures r.Err? <==> forall c :: c in cats ==> c.slug != slug
    ensures r.Err? ==> r.error == NotFound
    ensures r.Ok? ==>
              var cat := FindCategory(cats, slug).value;
              && cat in cats && cat.slug == slug
              && r.value.category == CategorySummary(cat.id, cat.name, cat.slug)
              && (forall a :: a in r.value.articles.items ==> a in rows && InCategory(a, cat.id))
              && Sorted(r.value.articles.items, ByCreatedAt, Desc)
              && |r.value.articles.items| <= perPage
              && r.value.articles.total == |CategoryListing(rows, cat.id)|
              && r.value.articles.perPage == perPage
              && r.value.articles.currentPage == CurrentPage(page)
  {
    var found := FindCategory(cats, slug);
    if found.Err? then Err(NotFound)
    else
      var cat := found.value;
      var all := CategoryListing(rows, cat.id);
      SortedPage(all, perPage, CurrentPage(page), ByCreatedAt, Desc);
      var p := Paginate(all, perPage, CurrentPage(page));
      assert forall a :: a in p.items ==> a in all;
      Ok(CategoryPage(CategorySummary(cat.id, cat.name, cat.slug), p))
  }

  /** Every published article of the category is on some page of it. */
  lemma TaggedArticleIsOnSomePage(cats: seq<Category>, rows: seq<Article>, slug: string,
                                  perPage: int, a: Article)
    requires perPage >= 1
    requires FindCategory(cats, slug).Ok?
    requires a in rows && InCategory(a, FindCategory(cats, slug).value.id)
    ensures exists n :: n >= 1 && a in GetCategoryWithArticles(cats, rows, slug, Some(n), perPage).value.articles.items
  {
    var all := CategoryListing(rows, FindCategory(cats, slug).value.id);
    var k :| 0 <= k < |all| && all[k] == a;
    var n := PageOf(perPage, k);
    PageHolds(all, perPage, k);
    assert CurrentPage(Some(n)) == n;
    assert a == GetCategoryWithArticles(cats, rows, slug, Some(n), perPage).value.articles.items[Slot(perPage, k)];
  }

  /** Page `n` of the category is page `n` of its newest-first listing. */
  lemma CategoryPageOfListing(cats: seq<Category>, rows: seq<Article>, slug: string, perPage: int, n: int)
    requires perPage >= 1 && n >= 1 && FindCategory(cats, slug).Ok?
    ensures GetCategoryWithArticles(cats, rows, slug, Some(n), perPage).value.articles.items
            == Paginate(CategoryListing(rows, FindCategory(cats, slug).value.id), perPage, n).items
  {
  }
}
