/**
 * The ownership and category scenarios of the article feature tests,
 * stated over a fresh store.
 */
module Scenarios {
  import opened Domain
  import opened ArticleService

  const Technology := Category(1, "Technology", "technology")
  const Science := Category(2, "Science", "science")

  /** A published article by user 1 in a store holding the two test categories. */
  method StoreWithArticle(categoryIds: Option<set<int>>) returns (store: ArticleStore, a: Article)
    requires categoryIds.Some? ==> categoryIds.value <= {1, 2}
    ensures fresh(store) && store.Valid()
    ensures store.articles == [a] && store.categories == [Technology, Science]
    ensures a.id == 1 && a.authorId == 1 && Live(a) && a.status == Published
    ensures a.slug == "original-title"
    ensures a.categories == (if categoryIds.Some? then categoryIds.value else {})
  {
    store := new ArticleStore([Technology, Science]);
    var data := NewArticle("Original Title", "Original content", Some("original-title"), Some(Published), categoryIds);
    a := store.CreateArticle(data, 1, 0);
  }

  /** Another user's update is refused and the stored article keeps its fields. */
  method OtherUserCannotUpdate() returns (r: Result<Article>, after: Article, before: Article)
    ensures r == Err(Forbidden)
    ensures after == before
  {
    var store;
    store, before := StoreWithArticle(None);
    r := store.UpdateArticle(1, ArticlePatch(Some("Hacked Title"), None, Some("Hacked content"), None, None), 2);
    after := store.articles[0];
  }

  /** Another user's delete is refused and the article stays live. */
  method OtherUserCannotDelete() returns (o: Outcome, after: Article)
    ensures o == Failed(Forbidden)
    ensures Live(after)
  {
    var store, a := StoreWithArticle(None);
    o := store.DeleteArticle(1, 2);
    after := store.articles[0];
  }

  /** The author's delete keeps the row but hides it from the lookup by slug. */
  method AuthorCanDelete() returns (o: Outcome, after: Article, lookup: Result<Article>)
    ensures o == Done
    ensures after.id == 1 && after.deleted
    ensures lookup == Err(NotFound)
  {
    var store, a := StoreWithArticle(None);
    assert FindLive(store.articles, 1) == Ok(a);
    o := store.DeleteArticle(1, 1);
    after := store.articles[0];
    lookup := GetArticleBySlug(store.articles, "original-title");
  }

  /** Updating the categories replaces the set: {Technology} becomes exactly {Science}. */
  method AuthorReplacesCategories() returns (r: Result<Article>)
    ensures r.Ok? && r.value.categories == {2}
  {
    var store, a := StoreWithArticle(Some({1}));
    assert FindLive(store.articles, 1) == Ok(a);
    r := store.UpdateArticle(1, ArticlePatch(None, None, None, None, Some({2})), 1);
  }

  /** An article created without a status is a draft written by the creating user. */
  method CreatedArticleDefaultsToDraft() returns (a: Article)
    ensures a.status == Draft && a.authorId == 7
    ensures a.title == "Draft Article"
  {
    var store := new ArticleStore([Technology]);
    a := store.CreateArticle(NewArticle("Draft Article", "Content", None, None, None), 7, 0);
  }
}
